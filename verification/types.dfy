/** Value types shared by the AHT30 modules. */
module Types {

  /**
   * One octet of a frame, an element of the driver's bytearray. As an
   * eight-bit vector its value is always in 0..255.
   */
  type Byte = bv8

  /** An optional value; the bus returns None when a read fails. */
  datatype Option<+T> = None | Some(value: T)
}

/**
  Types that several components use.
 */
module SharedTypes {

  datatype Option<+T> = None | Some(value: T)

  type Byte = b: int | 0 <= b < 0x100
}

/** Names shared by all parts of the model. */
module Common {
  type Byte = bv8

  const U32: nat := 0x1_0000_0000 // the integers of the code are 32 bits wide

  const AUTH_CERT_SIZE: nat := 3776 // an authentication certificate, signatures included

  /** Memory as the DMA sees it. */
  type Memory = nat -> Byte

  datatype Option<+T> = None | Some(value: T)
}

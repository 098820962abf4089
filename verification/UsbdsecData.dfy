/** The constant tables of the authentication functions. */
module UsbdsecData {
  import opened Bits
  import Parve

  type row = s: seq<byte> | |s| == 32 witness seq(32, _ => 0)

  const SBOX_0: row := [
    0xB0, 0x3D, 0x9B, 0x70, 0xF3, 0xC7, 0x80, 0x60, 0x73, 0x9F, 0x6C, 0xC0, 0xF1, 0x3D, 0xBB, 0x40,
    0xB3, 0xC8, 0x37, 0x14, 0xDF, 0x49, 0xDA, 0xD4, 0x48, 0x22, 0x78, 0x80, 0x6E, 0xCD, 0xE7, 0x00
  ]
  const SBOX_1: row := [
    0x81, 0x86, 0x68, 0xE1, 0x5D, 0x7C, 0x54, 0x2C, 0x55, 0x7B, 0xEF, 0x48, 0x42, 0x7B, 0x3B, 0x68,
    0xE3, 0xDB, 0xAA, 0xC0, 0x0F, 0xA9, 0x96, 0x20, 0x95, 0x05, 0x93, 0x94, 0x9A, 0xF6, 0xA3, 0x64
  ]
  const SBOX_2: row := [
    0x5D, 0xCC, 0x76, 0x00, 0xE5, 0x08, 0x19, 0xE8, 0x8D, 0x29, 0xD7, 0x4C, 0x21, 0x91, 0x17, 0xF4,
    0xBC, 0x6A, 0xB3, 0x80, 0x83, 0xC6, 0xD4, 0x90, 0x9B, 0xAE, 0x0E, 0xFE, 0x2E, 0x4A, 0xF2, 0x00
  ]
  const SBOX_3: row := [
    0x73, 0x88, 0xD9, 0x40, 0x66, 0xC5, 0xD4, 0x08, 0x57, 0xB1, 0x89, 0x48, 0xDC, 0x54, 0xFC, 0x43,
    0x6A, 0x26, 0x87, 0xB8, 0x09, 0x5F, 0xCE, 0x80, 0xE4, 0x0B, 0x05, 0x9C, 0x24, 0xF3, 0xDE, 0xE2
  ]
  const SBOX_4: row := [
    0x3E, 0xEC, 0x38, 0x8A, 0xA2, 0x55, 0xA4, 0x50, 0x4E, 0x4B, 0xE9, 0x58, 0x7F, 0x9F, 0x7D, 0x80,
    0x23, 0x0C, 0x4D, 0x80, 0x05, 0x44, 0x26, 0xB8, 0xE9, 0xD8, 0xBC, 0xE6, 0x76, 0x3A, 0x6E, 0xA4
  ]
  const SBOX_5: row := [
    0x19, 0xDE, 0xC2, 0xD0, 0xC4, 0xBC, 0xC3, 0x5C, 0x59, 0xDF, 0x16, 0x46, 0x39, 0x70, 0xF4, 0xEE,
    0x2D, 0x58, 0x5A, 0xA8, 0x17, 0x86, 0x6B, 0x60, 0x29, 0x58, 0x4D, 0xD2, 0x5F, 0x28, 0x7A, 0xD8
  ]
  const SBOX_6: row := [
    0x8E, 0x79, 0xEA, 0x82, 0x94, 0x33, 0x31, 0x81, 0xD9, 0x22, 0xD5, 0x10, 0xDA, 0x92, 0xA0, 0x7D,
    0x3D, 0xDA, 0xAC, 0x1C, 0xA2, 0x53, 0x31, 0xB8, 0x3C, 0x96, 0x52, 0x00, 0x82, 0x6B, 0x56, 0xA0
  ]
  const SBOX_7: row := [
    0xD3, 0xC2, 0x40, 0xC7, 0x1B, 0x7F, 0xDC, 0x01, 0x72, 0x70, 0xB1, 0x8C, 0x01, 0x09, 0x09, 0x36,
    0xFC, 0x97, 0xEA, 0xDE, 0xE3, 0x0D, 0xAE, 0x7E, 0xE3, 0x0D, 0xAE, 0x7E, 0x33, 0x69, 0x80, 0x40
  ]

  const SBOX: Parve.table := SBOX_0 + SBOX_1 + SBOX_2 + SBOX_3 + SBOX_4 + SBOX_5 + SBOX_6 + SBOX_7

  const PLAIN_TEXT: seq<byte> := [
    0xD1, 0xD2, 0xF2, 0x80, 0x6E, 0xBA, 0x0C, 0xC0, 0xB6, 0xC4, 0xC9, 0xD8, 0x61, 0x75, 0x1D, 0x1A,
    0x3F, 0x95, 0x58, 0xBE, 0xD8, 0x0D, 0xE2, 0xC0, 0xD0, 0x21, 0x79, 0x20, 0x65, 0x2D, 0x99, 0x40,
    0x3C, 0x96, 0x52, 0x00, 0x1B, 0x7F, 0xDC, 0x01, 0x82, 0x1C, 0x13, 0xD8, 0x33, 0x69, 0x80, 0x40,
    0xFC, 0x97, 0xEA, 0xDE, 0x08, 0xEA, 0x14, 0xDC, 0xEB, 0x0F, 0x6A, 0x18, 0x6F, 0x78, 0x2C, 0xB0,
    0xD3, 0xC2, 0x40, 0xC7, 0x82, 0x6B, 0x56, 0xA0, 0x19, 0x09, 0x36, 0xE0, 0x72, 0x70, 0xB1, 0x8C,
    0xE3, 0x0D, 0xAE, 0x7E, 0x50, 0xA5, 0x2B, 0xE2, 0xC9, 0xAF, 0xC7, 0x70, 0x1C, 0x29, 0x80, 0x56,
    0x24, 0xF0, 0x66, 0xFA, 0x02, 0x2B, 0x58, 0x98, 0x8F, 0xE4, 0xD1, 0x3C, 0x6E, 0x38, 0x2A, 0xFF,
    0xB8, 0xFA, 0x35, 0xB0, 0x52, 0x49, 0xC5, 0xB4, 0x66, 0xFA, 0x47, 0x55, 0x6C, 0x8D, 0x40, 0x08
  ]
}

/**
  * The byte arithmetic of aes.c: the two substitution tables, doubling in the field of section 4.2 of
  * FIPS 197, and the transformation of one column with its inverse.
  */
module AesBytes {

  /** The table sbox, as a search tree over the index. */
  function Sbox(x: bv8): bv8 {
    if x < 0x80 then
      (if x < 0x40 then
        (if x < 0x20 then
          (if x < 0x10 then
            (if x < 0x08 then
              (if x < 0x04 then
                (if x < 0x02 then (if x < 0x01 then 0x63 else 0x7c) else (if x < 0x03 then 0x77 else 0x7b))
              else
                (if x < 0x06 then (if x < 0x05 then 0xf2 else 0x6b) else (if x < 0x07 then 0x6f else 0xc5)))
            else
              (if x < 0x0C then
                (if x < 0x0A then (if x < 0x09 then 0x30 else 0x01) else (if x < 0x0B then 0x67 else 0x2b))
              else
                (if x < 0x0E then (if x < 0x0D then 0xfe else 0xd7) else (if x < 0x0F then 0xab else 0x76))))
          else
            (if x < 0x18 then
              (if x < 0x14 then
                (if x < 0x12 then (if x < 0x11 then 0xca else 0x82) else (if x < 0x13 then 0xc9 else 0x7d))
              else
                (if x < 0x16 then (if x < 0x15 then 0xfa else 0x59) else (if x < 0x17 then 0x47 else 0xf0)))
            else
              (if x < 0x1C then
                (if x < 0x1A then (if x < 0x19 then 0xad else 0xd4) else (if x < 0x1B then 0xa2 else 0xaf))
              else
                (if x < 0x1E then (if x < 0x1D then 0x9c else 0xa4) else (if x < 0x1F then 0x72 else 0xc0)))))
        else
          (if x < 0x30 then
            (if x < 0x28 then
              (if x < 0x24 then
                (if x < 0x22 then (if x < 0x21 then 0xb7 else 0xfd) else (if x < 0x23 then 0x93 else 0x26))
              else
                (if x < 0x26 then (if x < 0x25 then 0x36 else 0x3f) else (if x < 0x27 then 0xf7 else 0xcc)))
            else
              (if x < 0x2C then
                (if x < 0x2A then (if x < 0x29 then 0x34 else 0xa5) else (if x < 0x2B then 0xe5 else 0xf1))
              else
                (if x < 0x2E then (if x < 0x2D then 0x71 else 0xd8) else (if x < 0x2F then 0x31 else 0x15))))
          else
            (if x < 0x38 then
              (if x < 0x34 then
                (if x < 0x32 then (if x < 0x31 then 0x04 else 0xc7) else (if x < 0x33 then 0x23 else 0xc3))
              else
                (if x < 0x36 then (if x < 0x35 then 0x18 else 0x96) else (if x < 0x37 then 0x05 else 0x9a)))
            else
              (if x < 0x3C then
                (if x < 0x3A then (if x < 0x39 then 0x07 else 0x12) else (if x < 0x3B then 0x80 else 0xe2))
              else
                (if x < 0x3E then (if x < 0x3D then 0xeb else 0x27) else (if x < 0x3F then 0xb2 else 0x75))))))
      else
        (if x < 0x60 then
          (if x < 0x50 then
            (if x < 0x48 then
              (if x < 0x44 then
                (if x < 0x42 then (if x < 0x41 then 0x09 else 0x83) else (if x < 0x43 then 0x2c else 0x1a))
              else
                (if x < 0x46 then (if x < 0x45 then 0x1b else 0x6e) else (if x < 0x47 then 0x5a else 0xa0)))
            else
              (if x < 0x4C then
                (if x < 0x4A then (if x < 0x49 then 0x52 else 0x3b) else (if x < 0x4B then 0xd6 else 0xb3))
              else
                (if x < 0x4E then (if x < 0x4D then 0x29 else 0xe3) else (if x < 0x4F then 0x2f else 0x84))))
          else
            (if x < 0x58 then
              (if x < 0x54 then
                (if x < 0x52 then (if x < 0x51 then 0x53 else 0xd1) else (if x < 0x53 then 0x00 else 0xed))
              else
                (if x < 0x56 then (if x < 0x55 then 0x20 else 0xfc) else (if x < 0x57 then 0xb1 else 0x5b)))
            else
              (if x < 0x5C then
                (if x < 0x5A then (if x < 0x59 then 0x6a else 0xcb) else (if x < 0x5B then 0xbe else 0x39))
              else
                (if x < 0x5E then (if x < 0x5D then 0x4a else 0x4c) else (if x < 0x5F then 0x58 else 0xcf)))))
        else
          (if x < 0x70 then
            (if x < 0x68 then
              (if x < 0x64 then
                (if x < 0x62 then (if x < 0x61 then 0xd0 else 0xef) else (if x < 0x63 then 0xaa else 0xfb))
              else
                (if x < 0x66 then (if x < 0x65 then 0x43 else 0x4d) else (if x < 0x67 then 0x33 else 0x85)))
            else
              (if x < 0x6C then
                (if x < 0x6A then (if x < 0x69 then 0x45 else 0xf9) else (if x < 0x6B then 0x02 else 0x7f))
              else
                (if x < 0x6E then (if x < 0x6D then 0x50 else 0x3c) else (if x < 0x6F then 0x9f else 0xa8))))
          else
            (if x < 0x78 then
              (if x < 0x74 then
                (if x < 0x72 then (if x < 0x71 then 0x51 else 0xa3) else (if x < 0x73 then 0x40 else 0x8f))
              else
                (if x < 0x76 then (if x < 0x75 then 0x92 else 0x9d) else (if x < 0x77 then 0x38 else 0xf5)))
            else
              (if x < 0x7C then
                (if x < 0x7A then (if x < 0x79 then 0xbc else 0xb6) else (if x < 0x7B then 0xda else 0x21))
              else
                (if x < 0x7E then (if x < 0x7D then 0x10 else 0xff) else (if x < 0x7F then 0xf3 else 0xd2)))))))
    else
      (if x < 0xC0 then
        (if x < 0xA0 then
          (if x < 0x90 then
            (if x < 0x88 then
              (if x < 0x84 then
                (if x < 0x82 then (if x < 0x81 then 0xcd else 0x0c) else (if x < 0x83 then 0x13 else 0xec))
              else
                (if x < 0x86 then (if x < 0x85 then 0x5f else 0x97) else (if x < 0x87 then 0x44 else 0x17)))
            else
              (if x < 0x8C then
                (if x < 0x8A then (if x < 0x89 then 0xc4 else 0xa7) else (if x < 0x8B then 0x7e else 0x3d))
              else
                (if x < 0x8E then (if x < 0x8D then 0x64 else 0x5d) else (if x < 0x8F then 0x19 else 0x73))))
          else
            (if x < 0x98 then
              (if x < 0x94 then
                (if x < 0x92 then (if x < 0x91 then 0x60 else 0x81) else (if x < 0x93 then 0x4f else 0xdc))
              else
                (if x < 0x96 then (if x < 0x95 then 0x22 else 0x2a) else (if x < 0x97 then 0x90 else 0x88)))
            else
              (if x < 0x9C then
                (if x < 0x9A then (if x < 0x99 then 0x46 else 0xee) else (if x < 0x9B then 0xb8 else 0x14))
              else
                (if x < 0x9E then (if x < 0x9D then 0xde else 0x5e) else (if x < 0x9F then 0x0b else 0xdb)))))
        else
          (if x < 0xB0 then
            (if x < 0xA8 then
              (if x < 0xA4 then
                (if x < 0xA2 then (if x < 0xA1 then 0xe0 else 0x32) else (if x < 0xA3 then 0x3a else 0x0a))
              else
                (if x < 0xA6 then (if x < 0xA5 then 0x49 else 0x06) else (if x < 0xA7 then 0x24 else 0x5c)))
            else
              (if x < 0xAC then
                (if x < 0xAA then (if x < 0xA9 then 0xc2 else 0xd3) else (if x < 0xAB then 0xac else 0x62))
              else
                (if x < 0xAE then (if x < 0xAD then 0x91 else 0x95) else (if x < 0xAF then 0xe4 else 0x79))))
          else
            (if x < 0xB8 then
              (if x < 0xB4 then
                (if x < 0xB2 then (if x < 0xB1 then 0xe7 else 0xc8) else (if x < 0xB3 then 0x37 else 0x6d))
              else
                (if x < 0xB6 then (if x < 0xB5 then 0x8d else 0xd5) else (if x < 0xB7 then 0x4e else 0xa9)))
            else
              (if x < 0xBC then
                (if x < 0xBA then (if x < 0xB9 then 0x6c else 0x56) else (if x < 0xBB then 0xf4 else 0xea))
              else
                (if x < 0xBE then (if x < 0xBD then 0x65 else 0x7a) else (if x < 0xBF then 0xae else 0x08))))))
      else
        (if x < 0xE0 then
          (if x < 0xD0 then
            (if x < 0xC8 then
              (if x < 0xC4 then
                (if x < 0xC2 then (if x < 0xC1 then 0xba else 0x78) else (if x < 0xC3 then 0x25 else 0x2e))
              else
                (if x < 0xC6 then (if x < 0xC5 then 0x1c else 0xa6) else (if x < 0xC7 then 0xb4 else 0xc6)))
            else
              (if x < 0xCC then
                (if x < 0xCA then (if x < 0xC9 then 0xe8 else 0xdd) else (if x < 0xCB then 0x74 else 0x1f))
              else
                (if x < 0xCE then (if x < 0xCD then 0x4b else 0xbd) else (if x < 0xCF then 0x8b else 0x8a))))
          else
            (if x < 0xD8 then
              (if x < 0xD4 then
                (if x < 0xD2 then (if x < 0xD1 then 0x70 else 0x3e) else (if x < 0xD3 then 0xb5 else 0x66))
              else
                (if x < 0xD6 then (if x < 0xD5 then 0x48 else 0x03) else (if x < 0xD7 then 0xf6 else 0x0e)))
            else
              (if x < 0xDC then
                (if x < 0xDA then (if x < 0xD9 then 0x61 else 0x35) else (if x < 0xDB then 0x57 else 0xb9))
              else
                (if x < 0xDE then (if x < 0xDD then 0x86 else 0xc1) else (if x < 0xDF then 0x1d else 0x9e)))))
        else
          (if x < 0xF0 then
            (if x < 0xE8 then
              (if x < 0xE4 then
                (if x < 0xE2 then (if x < 0xE1 then 0xe1 else 0xf8) else (if x < 0xE3 then 0x98 else 0x11))
              else
                (if x < 0xE6 then (if x < 0xE5 then 0x69 else 0xd9) else (if x < 0xE7 then 0x8e else 0x94)))
            else
              (if x < 0xEC then
                (if x < 0xEA then (if x < 0xE9 then 0x9b else 0x1e) else (if x < 0xEB then 0x87 else 0xe9))
              else
                (if x < 0xEE then (if x < 0xED then 0xce else 0x55) else (if x < 0xEF then 0x28 else 0xdf))))
          else
            (if x < 0xF8 then
              (if x < 0xF4 then
                (if x < 0xF2 then (if x < 0xF1 then 0x8c else 0xa1) else (if x < 0xF3 then 0x89 else 0x0d))
              else
                (if x < 0xF6 then (if x < 0xF5 then 0xbf else 0xe6) else (if x < 0xF7 then 0x42 else 0x68)))
            else
              (if x < 0xFC then
                (if x < 0xFA then (if x < 0xF9 then 0x41 else 0x99) else (if x < 0xFB then 0x2d else 0x0f))
              else
                (if x < 0xFE then (if x < 0xFD then 0xb0 else 0x54) else (if x < 0xFF then 0xbb else 0x16)))))))
  }

  /** The table rsbox. */
  function InvSbox(x: bv8): bv8 {
    if x < 0x80 then
      (if x < 0x40 then
        (if x < 0x20 then
          (if x < 0x10 then
            (if x < 0x08 then
              (if x < 0x04 then
                (if x < 0x02 then (if x < 0x01 then 0x52 else 0x09) else (if x < 0x03 then 0x6a else 0xd5))
              else
                (if x < 0x06 then (if x < 0x05 then 0x30 else 0x36) else (if x < 0x07 then 0xa5 else 0x38)))
            else
              (if x < 0x0C then
                (if x < 0x0A then (if x < 0x09 then 0xbf else 0x40) else (if x < 0x0B then 0xa3 else 0x9e))
              else
                (if x < 0x0E then (if x < 0x0D then 0x81 else 0xf3) else (if x < 0x0F then 0xd7 else 0xfb))))
          else
            (if x < 0x18 then
              (if x < 0x14 then
                (if x < 0x12 then (if x < 0x11 then 0x7c else 0xe3) else (if x < 0x13 then 0x39 else 0x82))
              else
                (if x < 0x16 then (if x < 0x15 then 0x9b else 0x2f) else (if x < 0x17 then 0xff else 0x87)))
            else
              (if x < 0x1C then
                (if x < 0x1A then (if x < 0x19 then 0x34 else 0x8e) else (if x < 0x1B then 0x43 else 0x44))
              else
                (if x < 0x1E then (if x < 0x1D then 0xc4 else 0xde) else (if x < 0x1F then 0xe9 else 0xcb)))))
        else
          (if x < 0x30 then
            (if x < 0x28 then
              (if x < 0x24 then
                (if x < 0x22 then (if x < 0x21 then 0x54 else 0x7b) else (if x < 0x23 then 0x94 else 0x32))
              else
                (if x < 0x26 then (if x < 0x25 then 0xa6 else 0xc2) else (if x < 0x27 then 0x23 else 0x3d)))
            else
              (if x < 0x2C then
                (if x < 0x2A then (if x < 0x29 then 0xee else 0x4c) else (if x < 0x2B then 0x95 else 0x0b))
              else
                (if x < 0x2E then (if x < 0x2D then 0x42 else 0xfa) else (if x < 0x2F then 0xc3 else 0x4e))))
          else
            (if x < 0x38 then
              (if x < 0x34 then
                (if x < 0x32 then (if x < 0x31 then 0x08 else 0x2e) else (if x < 0x33 then 0xa1 else 0x66))
              else
                (if x < 0x36 then (if x < 0x35 then 0x28 else 0xd9) else (if x < 0x37 then 0x24 else 0xb2)))
            else
              (if x < 0x3C then
                (if x < 0x3A then (if x < 0x39 then 0x76 else 0x5b) else (if x < 0x3B then 0xa2 else 0x49))
              else
                (if x < 0x3E then (if x < 0x3D then 0x6d else 0x8b) else (if x < 0x3F then 0xd1 else 0x25))))))
      else
        (if x < 0x60 then
          (if x < 0x50 then
            (if x < 0x48 then
              (if x < 0x44 then
                (if x < 0x42 then (if x < 0x41 then 0x72 else 0xf8) else (if x < 0x43 then 0xf6 else 0x64))
              else
                (if x < 0x46 then (if x < 0x45 then 0x86 else 0x68) else (if x < 0x47 then 0x98 else 0x16)))
            else
              (if x < 0x4C then
                (if x < 0x4A then (if x < 0x49 then 0xd4 else 0xa4) else (if x < 0x4B then 0x5c else 0xcc))
              else
                (if x < 0x4E then (if x < 0x4D then 0x5d else 0x65) else (if x < 0x4F then 0xb6 else 0x92))))
          else
            (if x < 0x58 then
              (if x < 0x54 then
                (if x < 0x52 then (if x < 0x51 then 0x6c else 0x70) else (if x < 0x53 then 0x48 else 0x50))
              else
                (if x < 0x56 then (if x < 0x55 then 0xfd else 0xed) else (if x < 0x57 then 0xb9 else 0xda)))
            else
              (if x < 0x5C then
                (if x < 0x5A then (if x < 0x59 then 0x5e else 0x15) else (if x < 0x5B then 0x46 else 0x57))
              else
                (if x < 0x5E then (if x < 0x5D then 0xa7 else 0x8d) else (if x < 0x5F then 0x9d else 0x84)))))
        else
          (if x < 0x70 then
            (if x < 0x68 then
              (if x < 0x64 then
                (if x < 0x62 then (if x < 0x61 then 0x90 else 0xd8) else (if x < 0x63 then 0xab else 0x00))
              else
                (if x < 0x66 then (if x < 0x65 then 0x8c else 0xbc) else (if x < 0x67 then 0xd3 else 0x0a)))
            else
              (if x < 0x6C then
                (if x < 0x6A then (if x < 0x69 then 0xf7 else 0xe4) else (if x < 0x6B then 0x58 else 0x05))
              else
                (if x < 0x6E then (if x < 0x6D then 0xb8 else 0xb3) else (if x < 0x6F then 0x45 else 0x06))))
          else
            (if x < 0x78 then
              (if x < 0x74 then
                (if x < 0x72 then (if x < 0x71 then 0xd0 else 0x2c) else (if x < 0x73 then 0x1e else 0x8f))
              else
                (if x < 0x76 then (if x < 0x75 then 0xca else 0x3f) else (if x < 0x77 then 0x0f else 0x02)))
            else
              (if x < 0x7C then
                (if x < 0x7A then (if x < 0x79 then 0xc1 else 0xaf) else (if x < 0x7B then 0xbd else 0x03))
              else
                (if x < 0x7E then (if x < 0x7D then 0x01 else 0x13) else (if x < 0x7F then 0x8a else 0x6b)))))))
    else
      (if x < 0xC0 then
        (if x < 0xA0 then
          (if x < 0x90 then
            (if x < 0x88 then
              (if x < 0x84 then
                (if x < 0x82 then (if x < 0x81 then 0x3a else 0x91) else (if x < 0x83 then 0x11 else 0x41))
              else
                (if x < 0x86 then (if x < 0x85 then 0x4f else 0x67) else (if x < 0x87 then 0xdc else 0xea)))
            else
              (if x < 0x8C then
                (if x < 0x8A then (if x < 0x89 then 0x97 else 0xf2) else (if x < 0x8B then 0xcf else 0xce))
              else
                (if x < 0x8E then (if x < 0x8D then 0xf0 else 0xb4) else (if x < 0x8F then 0xe6 else 0x73))))
          else
            (if x < 0x98 then
              (if x < 0x94 then
                (if x < 0x92 then (if x < 0x91 then 0x96 else 0xac) else (if x < 0x93 then 0x74 else 0x22))
              else
                (if x < 0x96 then (if x < 0x95 then 0xe7 else 0xad) else (if x < 0x97 then 0x35 else 0x85)))
            else
              (if x < 0x9C then
                (if x < 0x9A then (if x < 0x99 then 0xe2 else 0xf9) else (if x < 0x9B then 0x37 else 0xe8))
              else
                (if x < 0x9E then (if x < 0x9D then 0x1c else 0x75) else (if x < 0x9F then 0xdf else 0x6e)))))
        else
          (if x < 0xB0 then
            (if x < 0xA8 then
              (if x < 0xA4 then
                (if x < 0xA2 then (if x < 0xA1 then 0x47 else 0xf1) else (if x < 0xA3 then 0x1a else 0x71))
              else
                (if x < 0xA6 then (if x < 0xA5 then 0x1d else 0x29) else (if x < 0xA7 then 0xc5 else 0x89)))
            else
              (if x < 0xAC then
                (if x < 0xAA then (if x < 0xA9 then 0x6f else 0xb7) else (if x < 0xAB then 0x62 else 0x0e))
              else
                (if x < 0xAE then (if x < 0xAD then 0xaa else 0x18) else (if x < 0xAF then 0xbe else 0x1b))))
          else
            (if x < 0xB8 then
              (if x < 0xB4 then
                (if x < 0xB2 then (if x < 0xB1 then 0xfc else 0x56) else (if x < 0xB3 then 0x3e else 0x4b))
              else
                (if x < 0xB6 then (if x < 0xB5 then 0xc6 else 0xd2) else (if x < 0xB7 then 0x79 else 0x20)))
            else
              (if x < 0xBC then
                (if x < 0xBA then (if x < 0xB9 then 0x9a else 0xdb) else (if x < 0xBB then 0xc0 else 0xfe))
              else
                (if x < 0xBE then (if x < 0xBD then 0x78 else 0xcd) else (if x < 0xBF then 0x5a else 0xf4))))))
      else
        (if x < 0xE0 then
          (if x < 0xD0 then
            (if x < 0xC8 then
              (if x < 0xC4 then
                (if x < 0xC2 then (if x < 0xC1 then 0x1f else 0xdd) else (if x < 0xC3 then 0xa8 else 0x33))
              else
                (if x < 0xC6 then (if x < 0xC5 then 0x88 else 0x07) else (if x < 0xC7 then 0xc7 else 0x31)))
            else
              (if x < 0xCC then
                (if x < 0xCA then (if x < 0xC9 then 0xb1 else 0x12) else (if x < 0xCB then 0x10 else 0x59))
              else
                (if x < 0xCE then (if x < 0xCD then 0x27 else 0x80) else (if x < 0xCF then 0xec else 0x5f))))
          else
            (if x < 0xD8 then
              (if x < 0xD4 then
                (if x < 0xD2 then (if x < 0xD1 then 0x60 else 0x51) else (if x < 0xD3 then 0x7f else 0xa9))
              else
                (if x < 0xD6 then (if x < 0xD5 then 0x19 else 0xb5) else (if x < 0xD7 then 0x4a else 0x0d)))
            else
              (if x < 0xDC then
                (if x < 0xDA then (if x < 0xD9 then 0x2d else 0xe5) else (if x < 0xDB then 0x7a else 0x9f))
              else
                (if x < 0xDE then (if x < 0xDD then 0x93 else 0xc9) else (if x < 0xDF then 0x9c else 0xef)))))
        else
          (if x < 0xF0 then
            (if x < 0xE8 then
              (if x < 0xE4 then
                (if x < 0xE2 then (if x < 0xE1 then 0xa0 else 0xe0) else (if x < 0xE3 then 0x3b else 0x4d))
              else
                (if x < 0xE6 then (if x < 0xE5 then 0xae else 0x2a) else (if x < 0xE7 then 0xf5 else 0xb0)))
            else
              (if x < 0xEC then
                (if x < 0xEA then (if x < 0xE9 then 0xc8 else 0xeb) else (if x < 0xEB then 0xbb else 0x3c))
              else
                (if x < 0xEE then (if x < 0xED then 0x83 else 0x53) else (if x < 0xEF then 0x99 else 0x61))))
          else
            (if x < 0xF8 then
              (if x < 0xF4 then
                (if x < 0xF2 then (if x < 0xF1 then 0x17 else 0x2b) else (if x < 0xF3 then 0x04 else 0x7e))
              else
                (if x < 0xF6 then (if x < 0xF5 then 0xba else 0x77) else (if x < 0xF7 then 0xd6 else 0x26)))
            else
              (if x < 0xFC then
                (if x < 0xFA then (if x < 0xF9 then 0xe1 else 0x69) else (if x < 0xFB then 0x14 else 0x63))
              else
                (if x < 0xFE then (if x < 0xFD then 0x55 else 0x21) else (if x < 0xFF then 0x0c else 0x7d)))))))
  }

  /** The two tables are inverse to each other. */
  lemma {:induction false} InvSboxUndoes(x: bv8)
    ensures InvSbox(Sbox(x)) == x
  {
  }

  lemma {:induction false} SboxUndoes(x: bv8)
    ensures Sbox(InvSbox(x)) == x
  {
  }

  /** Four bytes: a column of the state, or a word of the key schedule. */
  datatype Word = Word(a: bv8, b: bv8, c: bv8, d: bv8)

  // ---------------------------------------------------------------- field arithmetic

  /** Addition in the field. */
  function Add(x: bv8, y: bv8): bv8 {
    x ^ y
  }

  /** xtime: multiplication by x modulo x^8 + x^4 + x^3 + x + 1. */
  function Xtime(x: bv8): bv8 {
    (x << 1) ^ (if x & 0x80 != 0 then 0x1b else 0)
  }

  /** x if the bits of y under the mask are set, else 0. */
  function Masked(x: bv8, y: bv8, mask: bv8): bv8 {
    if y & mask != 0 then x else 0
  }

  function Sum(w: Word): bv8 {
    Add(Add(Add(w.a, w.b), w.c), w.d)
  }

  /** Multiply: the product in the field, for factors y below 32. */
  function Multiply(x: bv8, y: bv8): bv8 {
    Add(Sum(Word(Masked(x, y, 1), Masked(Xtime(x), y, 2), Masked(Xtime(Xtime(x)), y, 4), Masked(Xtime(Xtime(Xtime(x))), y, 8))),
        Masked(Xtime(Xtime(Xtime(Xtime(x)))), y, 16))
  }

  lemma {:induction false} AddLaws(x: bv8, y: bv8, z: bv8)
    ensures Add(Add(x, y), z) == Add(x, Add(y, z))
    ensures Add(x, y) == Add(y, x)
  {
  }

  lemma {:induction false} AddZero(x: bv8)
    ensures Add(x, 0) == x && Add(0, x) == x && Add(x, x) == 0
  {
  }

  /** Adding the same byte twice changes nothing. */
  lemma {:induction false} AddTwice(x: bv8, k: bv8)
    ensures Add(Add(x, k), k) == x
  {
    hide Add;
    AddLaws(x, k, k);
    AddZero(k);
    AddZero(x);
  }

  lemma {:induction false} XtimeAdd(x: bv8, y: bv8)
    ensures Xtime(Add(x, y)) == Add(Xtime(x), Xtime(y))
    ensures Xtime(0) == 0
  {
    if x & 0x80 != 0 {
      if y & 0x80 != 0 {
        assert (x ^ y) & 0x80 == 0;
      } else {
        assert (x ^ y) & 0x80 != 0;
      }
    } else {
      if y & 0x80 != 0 {
        assert (x ^ y) & 0x80 != 0;
      } else {
        assert (x ^ y) & 0x80 == 0;
      }
    }
  }

  lemma {:induction false} MaskedAdd(x: bv8, y: bv8, m: bv8, mask: bv8)
    ensures Masked(Add(x, y), m, mask) == Add(Masked(x, m, mask), Masked(y, m, mask))
  {
  }

  lemma {:induction false} Swap(a: bv8, b: bv8, c: bv8, d: bv8)
    ensures Add(Add(a, b), Add(c, d)) == Add(Add(a, c), Add(b, d))
  {
    hide Add;
    AddLaws(a, b, Add(c, d));
    AddLaws(b, c, d);
    AddLaws(c, b, d);
    AddLaws(a, c, Add(b, d));
  }

  lemma {:induction false} SumXor(q: Word, r: Word)
    ensures Sum(Xor(q, r)) == Add(Sum(q), Sum(r))
  {
    hide Add;
    Swap(q.a, r.a, q.b, r.b);
    Swap(Add(q.a, q.b), Add(r.a, r.b), q.c, r.c);
    Swap(Add(Add(q.a, q.b), q.c), Add(Add(r.a, r.b), r.c), q.d, r.d);
  }

  /** Multiplication distributes over addition. */
  lemma {:induction false} MultiplyAdd(x: bv8, y: bv8, k: bv8)
    ensures Multiply(Add(x, y), k) == Add(Multiply(x, k), Multiply(y, k))
  {
    hide Xtime, Masked, Add, Sum;
    var x2, y2 := Xtime(x), Xtime(y);
    var x4, y4 := Xtime(x2), Xtime(y2);
    var x8, y8 := Xtime(x4), Xtime(y4);
    var x16, y16 := Xtime(x8), Xtime(y8);
    XtimeAdd(x, y);
    XtimeAdd(x2, y2);
    XtimeAdd(x4, y4);
    XtimeAdd(x8, y8);
    MaskedAdd(x, y, k, 1);
    MaskedAdd(x2, y2, k, 2);
    MaskedAdd(x4, y4, k, 4);
    MaskedAdd(x8, y8, k, 8);
    MaskedAdd(x16, y16, k, 16);
    var q := Word(Masked(x, k, 1), Masked(x2, k, 2), Masked(x4, k, 4), Masked(x8, k, 8));
    var r := Word(Masked(y, k, 1), Masked(y2, k, 2), Masked(y4, k, 4), Masked(y8, k, 8));
    SumXor(q, r);
    Swap(Sum(q), Sum(r), Masked(x16, k, 16), Masked(y16, k, 16));
  }

  /** A mask of one bit distributes over the addition of factors. */
  lemma {:induction false} MaskedFactor(x: bv8, j: bv8, k: bv8, mask: bv8)
    requires mask == 1 || mask == 2 || mask == 4 || mask == 8 || mask == 16
    ensures Masked(x, Add(j, k), mask) == Add(Masked(x, j, mask), Masked(x, k, mask))
  {
  }

  /** Factors add up. */
  lemma {:induction false} FactorAdd(x: bv8, j: bv8, k: bv8)
    ensures Add(Multiply(x, j), Multiply(x, k)) == Multiply(x, Add(j, k))
  {
    hide Xtime, Masked, Add, Sum;
    var x2, x4, x8 := Xtime(x), Xtime(Xtime(x)), Xtime(Xtime(Xtime(x)));
    var x16 := Xtime(x8);
    MaskedFactor(x, j, k, 1);
    MaskedFactor(x2, j, k, 2);
    MaskedFactor(x4, j, k, 4);
    MaskedFactor(x8, j, k, 8);
    MaskedFactor(x16, j, k, 16);
    var q := Word(Masked(x, j, 1), Masked(x2, j, 2), Masked(x4, j, 4), Masked(x8, j, 8));
    var r := Word(Masked(x, k, 1), Masked(x2, k, 2), Masked(x4, k, 4), Masked(x8, k, 8));
    SumXor(q, r);
    Swap(Sum(q), Masked(x16, j, 16), Sum(r), Masked(x16, k, 16));
  }

  lemma {:induction false} FactorSum(x: bv8, i: bv8, j: bv8, k: bv8, l: bv8)
    ensures Sum(Word(Multiply(x, i), Multiply(x, j), Multiply(x, k), Multiply(x, l))) == Multiply(x, Sum(Word(i, j, k, l)))
  {
    hide Multiply, Add;
    FactorAdd(x, i, j);
    FactorAdd(x, Add(i, j), k);
    FactorAdd(x, Add(Add(i, j), k), l);
  }

  lemma {:induction false} FactorOne(x: bv8)
    ensures Multiply(x, 0) == 0 && Multiply(x, 1) == x
  {
    hide Xtime, Add;
    AddZero(0);
    AddZero(x);
  }

  /** The bits of a doubled factor. */
  lemma {:induction false} MaskedDouble(x: bv8, k: bv8)
    requires k < 16
    ensures Masked(x, k, 1) == Masked(x, k << 1, 2) && Masked(x, k, 2) == Masked(x, k << 1, 4)
    ensures Masked(x, k, 4) == Masked(x, k << 1, 8) && Masked(x, k, 8) == Masked(x, k << 1, 16)
    ensures Masked(x, k << 1, 1) == 0 && Masked(x, k, 16) == 0
  {
  }

  lemma {:induction false} XtimeMasked(x: bv8, k: bv8, mask: bv8)
    ensures Xtime(Masked(x, k, mask)) == Masked(Xtime(x), k, mask)
  {
    XtimeAdd(0, 0);
  }

  /** A factor is doubled by doubling the byte, or the product. */
  lemma {:induction false} FactorDouble(x: bv8, k: bv8)
    requires k < 16
    ensures Multiply(Xtime(x), k) == Multiply(x, k << 1) == Xtime(Multiply(x, k))
  {
    hide Xtime, Masked, Add;
    var x2, x4, x8 := Xtime(x), Xtime(Xtime(x)), Xtime(Xtime(Xtime(x)));
    var x16 := Xtime(x8);
    MaskedDouble(x, k);
    MaskedDouble(x2, k);
    MaskedDouble(x4, k);
    MaskedDouble(x8, k);
    MaskedDouble(x16, k);
    MaskedDouble(Xtime(x16), k);
    var a, b, c, d := Masked(x, k, 1), Masked(x2, k, 2), Masked(x4, k, 4), Masked(x8, k, 8);
    XtimeMasked(x, k, 1);
    XtimeMasked(x2, k, 2);
    XtimeMasked(x4, k, 4);
    XtimeMasked(x8, k, 8);
    XtimeAdd(a, b);
    XtimeAdd(Add(a, b), c);
    XtimeAdd(Add(Add(a, b), c), d);
    AddZero(Add(Add(Add(a, b), c), d));
    AddZero(Add(Add(Add(Xtime(a), Xtime(b)), Xtime(c)), Xtime(d)));
    AddZero(Xtime(a));
  }

  lemma {:induction false} FactorTriple(x: bv8, k: bv8)
    requires k < 16
    ensures Multiply(Add(Xtime(x), x), k) == Multiply(x, Add(k << 1, k))
  {
    hide Xtime, Add, Multiply;
    MultiplyAdd(Xtime(x), x, k);
    FactorDouble(x, k);
    FactorAdd(x, k << 1, k);
  }

  // ---------------------------------------------------------------- columns

  function Xor(u: Word, v: Word): Word {
    Word(Add(u.a, v.a), Add(u.b, v.b), Add(u.c, v.c), Add(u.d, v.d))
  }

  function Rotate(w: Word): Word {
    Word(w.b, w.c, w.d, w.a)
  }

  /** One byte of a mixed column; t is the sum of the column. */
  function MixByte(x: bv8, y: bv8, t: bv8): bv8 {
    Add(x, Add(Xtime(Add(x, y)), t))
  }

  /** MixColumns on one column. */
  function MixColumn(w: Word): Word {
    var t := Sum(w);
    Word(MixByte(w.a, w.b, t), MixByte(w.b, w.c, t), MixByte(w.c, w.d, t), MixByte(w.d, w.a, t))
  }

  /** One byte of an unmixed column. */
  function UnmixByte(w: Word): bv8 {
    Sum(Word(Multiply(w.a, 0x0e), Multiply(w.b, 0x0b), Multiply(w.c, 0x0d), Multiply(w.d, 0x09)))
  }

  /** InvMixColumns on one column. */
  function InvMixColumn(w: Word): Word {
    Word(UnmixByte(w), UnmixByte(Rotate(w)), UnmixByte(Rotate(Rotate(w))), UnmixByte(Rotate(Rotate(Rotate(w)))))
  }

  lemma {:induction false} MixByteAdd(x: bv8, x': bv8, y: bv8, y': bv8, t: bv8, t': bv8)
    ensures MixByte(Add(x, x'), Add(y, y'), Add(t, t')) == Add(MixByte(x, y, t), MixByte(x', y', t'))
  {
    hide Xtime, Add;
    var p, p' := Xtime(Add(x, y)), Xtime(Add(x', y'));
    Swap(x, x', y, y');
    XtimeAdd(Add(x, y), Add(x', y'));
    Swap(p, p', t, t');
    Swap(x, x', Add(p, t), Add(p', t'));
  }

  /** Mixing and unmixing are linear. */
  lemma {:induction false} MixColumnXor(u: Word, v: Word)
    ensures MixColumn(Xor(u, v)) == Xor(MixColumn(u), MixColumn(v))
  {
    hide MixByte, Add, Sum;
    SumXor(u, v);
    MixByteAdd(u.a, v.a, u.b, v.b, Sum(u), Sum(v));
    MixByteAdd(u.b, v.b, u.c, v.c, Sum(u), Sum(v));
    MixByteAdd(u.c, v.c, u.d, v.d, Sum(u), Sum(v));
    MixByteAdd(u.d, v.d, u.a, v.a, Sum(u), Sum(v));
  }

  lemma {:induction false} UnmixByteXor(u: Word, v: Word)
    ensures UnmixByte(Xor(u, v)) == Add(UnmixByte(u), UnmixByte(v))
  {
    hide Multiply, Add, Sum;
    MultiplyAdd(u.a, v.a, 0x0e);
    MultiplyAdd(u.b, v.b, 0x0b);
    MultiplyAdd(u.c, v.c, 0x0d);
    MultiplyAdd(u.d, v.d, 0x09);
    SumXor(Word(Multiply(u.a, 0x0e), Multiply(u.b, 0x0b), Multiply(u.c, 0x0d), Multiply(u.d, 0x09)),
           Word(Multiply(v.a, 0x0e), Multiply(v.b, 0x0b), Multiply(v.c, 0x0d), Multiply(v.d, 0x09)));
  }

  lemma {:induction false} InvMixColumnXor(u: Word, v: Word)
    ensures InvMixColumn(Xor(u, v)) == Xor(InvMixColumn(u), InvMixColumn(v))
  {
    hide UnmixByte, Add;
    UnmixByteXor(u, v);
    UnmixByteXor(Rotate(u), Rotate(v));
    UnmixByteXor(Rotate(Rotate(u)), Rotate(Rotate(v)));
    UnmixByteXor(Rotate(Rotate(Rotate(u))), Rotate(Rotate(Rotate(v))));
  }

  lemma {:induction false} SumCycles(w: Word)
    ensures Sum(Rotate(w)) == Sum(w)
  {
    hide Add;
    AddLaws(Add(Add(w.b, w.c), w.d), w.a, 0);
    AddLaws(w.a, Add(w.b, w.c), w.d);
    AddLaws(w.a, w.b, w.c);
  }

  lemma {:induction false} MixRotates(w: Word)
    ensures MixColumn(Rotate(w)) == Rotate(MixColumn(w))
    ensures InvMixColumn(Rotate(w)) == Rotate(InvMixColumn(w))
  {
    hide MixByte, UnmixByte, Sum;
    SumCycles(w);
  }

  /** The four rows of InvMixColumns, in the order in which the products are added. */
  lemma {:induction false} InvMixColumnRows(w: Word)
    ensures InvMixColumn(w).a == Sum(Word(Multiply(w.a, 0x0e), Multiply(w.b, 0x0b), Multiply(w.c, 0x0d), Multiply(w.d, 0x09)))
    ensures InvMixColumn(w).b == Sum(Word(Multiply(w.a, 0x09), Multiply(w.b, 0x0e), Multiply(w.c, 0x0b), Multiply(w.d, 0x0d)))
    ensures InvMixColumn(w).c == Sum(Word(Multiply(w.a, 0x0d), Multiply(w.b, 0x09), Multiply(w.c, 0x0e), Multiply(w.d, 0x0b)))
    ensures InvMixColumn(w).d == Sum(Word(Multiply(w.a, 0x0b), Multiply(w.b, 0x0d), Multiply(w.c, 0x09), Multiply(w.d, 0x0e)))
  {
    hide Multiply, Sum;
    var b := Word(Multiply(w.a, 0x09), Multiply(w.b, 0x0e), Multiply(w.c, 0x0b), Multiply(w.d, 0x0d));
    var c := Word(Multiply(w.a, 0x0d), Multiply(w.b, 0x09), Multiply(w.c, 0x0e), Multiply(w.d, 0x0b));
    var d := Word(Multiply(w.a, 0x0b), Multiply(w.b, 0x0d), Multiply(w.c, 0x09), Multiply(w.d, 0x0e));
    SumCycles(b);
    SumCycles(c);
    SumCycles(Rotate(c));
    SumCycles(d);
    SumCycles(Rotate(d));
    SumCycles(Rotate(Rotate(d)));
  }

  // ---------------------------------------------------------------- columns with one byte set

  lemma {:induction false} MixOne(a: bv8)
    ensures MixColumn(Word(a, 0, 0, 0)) == Word(Xtime(a), a, a, Add(Xtime(a), a))
  {
    hide Xtime, Add;
    AddZero(a);
    AddZero(0);
    AddZero(Xtime(a));
    AddZero(Add(Xtime(a), a));
    XtimeAdd(a, 0);
    AddLaws(Xtime(a), a, 0);
    AddLaws(a, a, Xtime(a));
  }

  lemma {:induction false} UnmixFirst(a: bv8)
    ensures UnmixByte(Word(Xtime(a), a, a, Add(Xtime(a), a))) == a
  {
    assert Sum(Word(0x1c, 0x0b, 0x0d, 0x1b)) == 1 && Add(0x12, 0x09) == 0x1b;
    hide Xtime, Add, Multiply;
    FactorOne(a);
    FactorDouble(a, 0x0e);
    FactorTriple(a, 0x09);
    FactorSum(a, 0x1c, 0x0b, 0x0d, 0x1b);
  }

  lemma {:induction false} UnmixSecond(a: bv8)
    ensures UnmixByte(Word(a, a, Add(Xtime(a), a), Xtime(a))) == 0
  {
    assert Sum(Word(0x0e, 0x0b, 0x17, 0x12)) == 0 && Add(0x1a, 0x0d) == 0x17;
    hide Xtime, Add, Multiply;
    FactorOne(a);
    FactorTriple(a, 0x0d);
    FactorDouble(a, 0x09);
    FactorSum(a, 0x0e, 0x0b, 0x17, 0x12);
  }

  lemma {:induction false} UnmixThird(a: bv8)
    ensures UnmixByte(Word(a, Add(Xtime(a), a), Xtime(a), a)) == 0
  {
    assert Sum(Word(0x0e, 0x1d, 0x1a, 0x09)) == 0 && Add(0x16, 0x0b) == 0x1d;
    hide Xtime, Add, Multiply;
    FactorOne(a);
    FactorTriple(a, 0x0b);
    FactorDouble(a, 0x0d);
    FactorSum(a, 0x0e, 0x1d, 0x1a, 0x09);
  }

  lemma {:induction false} UnmixFourth(a: bv8)
    ensures UnmixByte(Word(Add(Xtime(a), a), Xtime(a), a, a)) == 0
  {
    assert Sum(Word(0x12, 0x16, 0x0d, 0x09)) == 0 && Add(0x1c, 0x0e) == 0x12;
    hide Xtime, Add, Multiply;
    FactorOne(a);
    FactorTriple(a, 0x0e);
    FactorDouble(a, 0x0b);
    FactorSum(a, 0x12, 0x16, 0x0d, 0x09);
  }

  lemma {:induction false} MixThenUnmixOne(a: bv8)
    ensures InvMixColumn(MixColumn(Word(a, 0, 0, 0))) == Word(a, 0, 0, 0)
  {
    hide UnmixByte, MixColumn, Xtime, Add;
    MixOne(a);
    UnmixFirst(a);
    UnmixSecond(a);
    UnmixThird(a);
    UnmixFourth(a);
  }

  lemma {:induction false} MultiplyZero(k: bv8)
    ensures Multiply(0, k) == 0
  {
  }

  /** A column with one byte set, unmixed. */
  lemma {:induction false} InvMixOne(a: bv8)
    ensures InvMixColumn(Word(a, 0, 0, 0)) == Word(Multiply(a, 0x0e), Multiply(a, 0x09), Multiply(a, 0x0d), Multiply(a, 0x0b))
  {
    hide Multiply, Add;
    MultiplyZero(0x0e);
    MultiplyZero(0x0b);
    MultiplyZero(0x0d);
    MultiplyZero(0x09);
    AddZero(0);
    AddZero(Multiply(a, 0x0e));
    AddZero(Multiply(a, 0x09));
    AddZero(Multiply(a, 0x0d));
    AddZero(Multiply(a, 0x0b));
  }

  /** A row of the mixed column of the four products, by its factors. */
  lemma {:induction false} RemixRow(a: bv8, j: bv8, k: bv8)
    requires j < 16 && k < 16
    ensures MixByte(Multiply(a, j), Multiply(a, k), a) == Multiply(a, Add(j, Add(Add(j, k) << 1, 1)))
  {
    assert Add(j, k) < 16;
    hide Xtime, Add, Multiply;
    FactorOne(a);
    FactorAdd(a, j, k);
    FactorDouble(a, Add(j, k));
    FactorAdd(a, Add(j, k) << 1, 1);
    FactorAdd(a, j, Add(Add(j, k) << 1, 1));
  }

  lemma {:induction false} UnmixThenMixOne(a: bv8)
    ensures MixColumn(InvMixColumn(Word(a, 0, 0, 0))) == Word(a, 0, 0, 0)
  {
    assert Sum(Word(0x0e, 0x09, 0x0d, 0x0b)) == 1;
    hide Multiply, MixByte, Sum, InvMixColumn;
    InvMixOne(a);
    FactorOne(a);
    FactorSum(a, 0x0e, 0x09, 0x0d, 0x0b);
    RemixRow(a, 0x0e, 0x09);
    RemixRow(a, 0x09, 0x0d);
    RemixRow(a, 0x0d, 0x0b);
    RemixRow(a, 0x0b, 0x0e);
  }

  // ---------------------------------------------------------------- the matrix product

  /** The first byte of a mixed column is the product of section 5.1.3 of FIPS 197. */
  lemma {:induction false} FirstProduct(w: Word)
    ensures MixColumn(w).a == Sum(Word(Xtime(w.a), Add(Xtime(w.b), w.b), w.c, w.d))
  {
    hide Xtime, Add;
    var x, y := Xtime(w.a), Xtime(w.b);
    XtimeAdd(w.a, w.b);
    AddLaws(Add(w.a, w.b), w.c, w.d);
    AddLaws(Add(x, Add(y, w.b)), w.c, w.d);
    Drop(w.a, x, y, w.b, Add(w.c, w.d));
  }

  /** a + ((x + y) + ((a + b) + r)) is (x + (y + b)) + r. */
  lemma {:induction false} Drop(a: bv8, x: bv8, y: bv8, b: bv8, r: bv8)
    ensures Add(a, Add(Add(x, y), Add(Add(a, b), r))) == Add(Add(x, Add(y, b)), r)
  {
    hide Add;
    var q := Add(x, y);
    AddLaws(a, b, r);
    AddLaws(q, a, Add(b, r));
    AddLaws(a, q, Add(b, r));
    AddLaws(a, a, Add(q, Add(b, r)));
    AddZero(a);
    AddZero(Add(q, Add(b, r)));
    AddLaws(q, b, r);
    AddLaws(x, y, b);
  }

  /** Every byte of a mixed column is the product of a row of the matrix with the column. */
  lemma {:induction false} MixColumnIsProduct(w: Word)
    ensures MixColumn(w).a == Sum(Word(Xtime(w.a), Add(Xtime(w.b), w.b), w.c, w.d))
    ensures MixColumn(w).b == Sum(Word(Xtime(w.b), Add(Xtime(w.c), w.c), w.d, w.a))
    ensures MixColumn(w).c == Sum(Word(Xtime(w.c), Add(Xtime(w.d), w.d), w.a, w.b))
    ensures MixColumn(w).d == Sum(Word(Xtime(w.d), Add(Xtime(w.a), w.a), w.b, w.c))
  {
    hide Xtime, Add, MixColumn, Sum;
    FirstProduct(w);
    MixRotates(w);
    FirstProduct(Rotate(w));
    MixRotates(Rotate(w));
    FirstProduct(Rotate(Rotate(w)));
    MixRotates(Rotate(Rotate(w)));
    FirstProduct(Rotate(Rotate(Rotate(w))));
  }

  /** A column as the sum of four columns with one byte set each. */
  lemma {:induction false} Decompose(w: Word)
    ensures w == Xor(Xor(Word(w.a, 0, 0, 0), Word(0, w.b, 0, 0)), Xor(Word(0, 0, w.c, 0), Word(0, 0, 0, w.d)))
  {
    hide Add;
    AddZero(w.a);
    AddZero(w.b);
    AddZero(w.c);
    AddZero(w.d);
    AddZero(0);
  }

  /** The columns with one byte set are rotations of each other. */
  lemma {:induction false} Rotations(x: bv8)
    ensures Rotate(Word(x, 0, 0, 0)) == Word(0, 0, 0, x)
    ensures Rotate(Word(0, 0, 0, x)) == Word(0, 0, x, 0)
    ensures Rotate(Word(0, 0, x, 0)) == Word(0, x, 0, 0)
  {
  }

  /** A column that mixing and unmixing give back, in either order. */
  predicate Restored(w: Word) {
    InvMixColumn(MixColumn(w)) == w && MixColumn(InvMixColumn(w)) == w
  }

  lemma {:induction false} RotatedRestored(w: Word)
    requires Restored(w)
    ensures Restored(Rotate(w))
  {
    hide MixColumn, InvMixColumn, Rotate;
    MixRotates(w);
    MixRotates(MixColumn(w));
    MixRotates(InvMixColumn(w));
  }

  lemma {:induction false} OneByteRestored(x: bv8)
    ensures Restored(Word(x, 0, 0, 0)) && Restored(Word(0, x, 0, 0)) && Restored(Word(0, 0, x, 0)) && Restored(Word(0, 0, 0, x))
  {
    hide MixColumn, InvMixColumn;
    MixThenUnmixOne(x);
    UnmixThenMixOne(x);
    Rotations(x);
    RotatedRestored(Word(x, 0, 0, 0));
    RotatedRestored(Word(0, 0, 0, x));
    RotatedRestored(Word(0, 0, x, 0));
  }

  lemma {:induction false} SumRestored(u: Word, v: Word)
    requires Restored(u) && Restored(v)
    ensures Restored(Xor(u, v))
  {
    hide MixColumn, InvMixColumn, Xor;
    MixColumnXor(u, v);
    InvMixColumnXor(MixColumn(u), MixColumn(v));
    InvMixColumnXor(u, v);
    MixColumnXor(InvMixColumn(u), InvMixColumn(v));
  }

  /** InvMixColumns undoes MixColumns, and the other way round, on every column. */
  lemma {:induction false} ColumnInverse(w: Word)
    ensures InvMixColumn(MixColumn(w)) == w
    ensures MixColumn(InvMixColumn(w)) == w
  {
    hide MixColumn, InvMixColumn, Xor;
    var a, b, c, d := Word(w.a, 0, 0, 0), Word(0, w.b, 0, 0), Word(0, 0, w.c, 0), Word(0, 0, 0, w.d);
    Decompose(w);
    OneByteRestored(w.a);
    OneByteRestored(w.b);
    OneByteRestored(w.c);
    OneByteRestored(w.d);
    SumRestored(a, b);
    SumRestored(c, d);
    SumRestored(Xor(a, b), Xor(c, d));
  }
}

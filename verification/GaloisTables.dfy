/** The exponent and logarithm tables of GF(2^8), generated by x^8 + x^4 + x^3 + x^2 + 1.
    Each table is a decision tree on the bits of the index, eight entries to a leaf, so that
    statements about all of its entries stay within bit-vector reasoning. */
module GaloisTables {

  /** gf256_exp[i]. */
  function Exp(i: bv8): bv8 {
    if i & 128 == 0 then (
     if i & 64 == 0 then (
      if i & 32 == 0 then (
       if i & 16 == 0 then (
        if i & 8 == 0 then (
         if i & 4 == 0 then (if i & 2 == 0 then (if i & 1 == 0 then 0x01 else 0x02) else (if i & 1 == 0 then 0x04 else 0x08))
         else (if i & 2 == 0 then (if i & 1 == 0 then 0x10 else 0x20) else (if i & 1 == 0 then 0x40 else 0x80)))
        else (
         if i & 4 == 0 then (if i & 2 == 0 then (if i & 1 == 0 then 0x1d else 0x3a) else (if i & 1 == 0 then 0x74 else 0xe8))
         else (if i & 2 == 0 then (if i & 1 == 0 then 0xcd else 0x87) else (if i & 1 == 0 then 0x13 else 0x26))))
       else (
        if i & 8 == 0 then (
         if i & 4 == 0 then (if i & 2 == 0 then (if i & 1 == 0 then 0x4c else 0x98) else (if i & 1 == 0 then 0x2d else 0x5a))
         else (if i & 2 == 0 then (if i & 1 == 0 then 0xb4 else 0x75) else (if i & 1 == 0 then 0xea else 0xc9)))
        else (
         if i & 4 == 0 then (if i & 2 == 0 then (if i & 1 == 0 then 0x8f else 0x03) else (if i & 1 == 0 then 0x06 else 0x0c))
         else (if i & 2 == 0 then (if i & 1 == 0 then 0x18 else 0x30) else (if i & 1 == 0 then 0x60 else 0xc0)))))
      else (
       if i & 16 == 0 then (
        if i & 8 == 0 then (
         if i & 4 == 0 then (if i & 2 == 0 then (if i & 1 == 0 then 0x9d else 0x27) else (if i & 1 == 0 then 0x4e else 0x9c))
         else (if i & 2 == 0 then (if i & 1 == 0 then 0x25 else 0x4a) else (if i & 1 == 0 then 0x94 else 0x35)))
        else (
         if i & 4 == 0 then (if i & 2 == 0 then (if i & 1 == 0 then 0x6a else 0xd4) else (if i & 1 == 0 then 0xb5 else 0x77))
         else (if i & 2 == 0 then (if i & 1 == 0 then 0xee else 0xc1) else (if i & 1 == 0 then 0x9f else 0x23))))
       else (
        if i & 8 == 0 then (
         if i & 4 == 0 then (if i & 2 == 0 then (if i & 1 == 0 then 0x46 else 0x8c) else (if i & 1 == 0 then 0x05 else 0x0a))
         else (if i & 2 == 0 then (if i & 1 == 0 then 0x14 else 0x28) else (if i & 1 == 0 then 0x50 else 0xa0)))
        else (
         if i & 4 == 0 then (if i & 2 == 0 then (if i & 1 == 0 then 0x5d else 0xba) else (if i & 1 == 0 then 0x69 else 0xd2))
         else (if i & 2 == 0 then (if i & 1 == 0 then 0xb9 else 0x6f) else (if i & 1 == 0 then 0xde else 0xa1))))))
     else (
      if i & 32 == 0 then (
       if i & 16 == 0 then (
        if i & 8 == 0 then (
         if i & 4 == 0 then (if i & 2 == 0 then (if i & 1 == 0 then 0x5f else 0xbe) else (if i & 1 == 0 then 0x61 else 0xc2))
         else (if i & 2 == 0 then (if i & 1 == 0 then 0x99 else 0x2f) else (if i & 1 == 0 then 0x5e else 0xbc)))
        else (
         if i & 4 == 0 then (if i & 2 == 0 then (if i & 1 == 0 then 0x65 else 0xca) else (if i & 1 == 0 then 0x89 else 0x0f))
         else (if i & 2 == 0 then (if i & 1 == 0 then 0x1e else 0x3c) else (if i & 1 == 0 then 0x78 else 0xf0))))
       else (
        if i & 8 == 0 then (
         if i & 4 == 0 then (if i & 2 == 0 then (if i & 1 == 0 then 0xfd else 0xe7) else (if i & 1 == 0 then 0xd3 else 0xbb))
         else (if i & 2 == 0 then (if i & 1 == 0 then 0x6b else 0xd6) else (if i & 1 == 0 then 0xb1 else 0x7f)))
        else (
         if i & 4 == 0 then (if i & 2 == 0 then (if i & 1 == 0 then 0xfe else 0xe1) else (if i & 1 == 0 then 0xdf else 0xa3))
         else (if i & 2 == 0 then (if i & 1 == 0 then 0x5b else 0xb6) else (if i & 1 == 0 then 0x71 else 0xe2)))))
      else (
       if i & 16 == 0 then (
        if i & 8 == 0 then (
         if i & 4 == 0 then (if i & 2 == 0 then (if i & 1 == 0 then 0xd9 else 0xaf) else (if i & 1 == 0 then 0x43 else 0x86))
         else (if i & 2 == 0 then (if i & 1 == 0 then 0x11 else 0x22) else (if i & 1 == 0 then 0x44 else 0x88)))
        else (
         if i & 4 == 0 then (if i & 2 == 0 then (if i & 1 == 0 then 0x0d else 0x1a) else (if i & 1 == 0 then 0x34 else 0x68))
         else (if i & 2 == 0 then (if i & 1 == 0 then 0xd0 else 0xbd) else (if i & 1 == 0 then 0x67 else 0xce))))
       else (
        if i & 8 == 0 then (
         if i & 4 == 0 then (if i & 2 == 0 then (if i & 1 == 0 then 0x81 else 0x1f) else (if i & 1 == 0 then 0x3e else 0x7c))
         else (if i & 2 == 0 then (if i & 1 == 0 then 0xf8 else 0xed) else (if i & 1 == 0 then 0xc7 else 0x93)))
        else (
         if i & 4 == 0 then (if i & 2 == 0 then (if i & 1 == 0 then 0x3b else 0x76) else (if i & 1 == 0 then 0xec else 0xc5))
         else (if i & 2 == 0 then (if i & 1 == 0 then 0x97 else 0x33) else (if i & 1 == 0 then 0x66 else 0xcc)))))))
    else (
     if i & 64 == 0 then (
      if i & 32 == 0 then (
       if i & 16 == 0 then (
        if i & 8 == 0 then (
         if i & 4 == 0 then (if i & 2 == 0 then (if i & 1 == 0 then 0x85 else 0x17) else (if i & 1 == 0 then 0x2e else 0x5c))
         else (if i & 2 == 0 then (if i & 1 == 0 then 0xb8 else 0x6d) else (if i & 1 == 0 then 0xda else 0xa9)))
        else (
         if i & 4 == 0 then (if i & 2 == 0 then (if i & 1 == 0 then 0x4f else 0x9e) else (if i & 1 == 0 then 0x21 else 0x42))
         else (if i & 2 == 0 then (if i & 1 == 0 then 0x84 else 0x15) else (if i & 1 == 0 then 0x2a else 0x54))))
       else (
        if i & 8 == 0 then (
         if i & 4 == 0 then (if i & 2 == 0 then (if i & 1 == 0 then 0xa8 else 0x4d) else (if i & 1 == 0 then 0x9a else 0x29))
         else (if i & 2 == 0 then (if i & 1 == 0 then 0x52 else 0xa4) else (if i & 1 == 0 then 0x55 else 0xaa)))
        else (
         if i & 4 == 0 then (if i & 2 == 0 then (if i & 1 == 0 then 0x49 else 0x92) else (if i & 1 == 0 then 0x39 else 0x72))
         else (if i & 2 == 0 then (if i & 1 == 0 then 0xe4 else 0xd5) else (if i & 1 == 0 then 0xb7 else 0x73)))))
      else (
       if i & 16 == 0 then (
        if i & 8 == 0 then (
         if i & 4 == 0 then (if i & 2 == 0 then (if i & 1 == 0 then 0xe6 else 0xd1) else (if i & 1 == 0 then 0xbf else 0x63))
         else (if i & 2 == 0 then (if i & 1 == 0 then 0xc6 else 0x91) else (if i & 1 == 0 then 0x3f else 0x7e)))
        else (
         if i & 4 == 0 then (if i & 2 == 0 then (if i & 1 == 0 then 0xfc else 0xe5) else (if i & 1 == 0 then 0xd7 else 0xb3))
         else (if i & 2 == 0 then (if i & 1 == 0 then 0x7b else 0xf6) else (if i & 1 == 0 then 0xf1 else 0xff))))
       else (
        if i & 8 == 0 then (
         if i & 4 == 0 then (if i & 2 == 0 then (if i & 1 == 0 then 0xe3 else 0xdb) else (if i & 1 == 0 then 0xab else 0x4b))
         else (if i & 2 == 0 then (if i & 1 == 0 then 0x96 else 0x31) else (if i & 1 == 0 then 0x62 else 0xc4)))
        else (
         if i & 4 == 0 then (if i & 2 == 0 then (if i & 1 == 0 then 0x95 else 0x37) else (if i & 1 == 0 then 0x6e else 0xdc))
         else (if i & 2 == 0 then (if i & 1 == 0 then 0xa5 else 0x57) else (if i & 1 == 0 then 0xae else 0x41))))))
     else (
      if i & 32 == 0 then (
       if i & 16 == 0 then (
        if i & 8 == 0 then (
         if i & 4 == 0 then (if i & 2 == 0 then (if i & 1 == 0 then 0x82 else 0x19) else (if i & 1 == 0 then 0x32 else 0x64))
         else (if i & 2 == 0 then (if i & 1 == 0 then 0xc8 else 0x8d) else (if i & 1 == 0 then 0x07 else 0x0e)))
        else (
         if i & 4 == 0 then (if i & 2 == 0 then (if i & 1 == 0 then 0x1c else 0x38) else (if i & 1 == 0 then 0x70 else 0xe0))
         else (if i & 2 == 0 then (if i & 1 == 0 then 0xdd else 0xa7) else (if i & 1 == 0 then 0x53 else 0xa6))))
       else (
        if i & 8 == 0 then (
         if i & 4 == 0 then (if i & 2 == 0 then (if i & 1 == 0 then 0x51 else 0xa2) else (if i & 1 == 0 then 0x59 else 0xb2))
         else (if i & 2 == 0 then (if i & 1 == 0 then 0x79 else 0xf2) else (if i & 1 == 0 then 0xf9 else 0xef)))
        else (
         if i & 4 == 0 then (if i & 2 == 0 then (if i & 1 == 0 then 0xc3 else 0x9b) else (if i & 1 == 0 then 0x2b else 0x56))
         else (if i & 2 == 0 then (if i & 1 == 0 then 0xac else 0x45) else (if i & 1 == 0 then 0x8a else 0x09)))))
      else (
       if i & 16 == 0 then (
        if i & 8 == 0 then (
         if i & 4 == 0 then (if i & 2 == 0 then (if i & 1 == 0 then 0x12 else 0x24) else (if i & 1 == 0 then 0x48 else 0x90))
         else (if i & 2 == 0 then (if i & 1 == 0 then 0x3d else 0x7a) else (if i & 1 == 0 then 0xf4 else 0xf5)))
        else (
         if i & 4 == 0 then (if i & 2 == 0 then (if i & 1 == 0 then 0xf7 else 0xf3) else (if i & 1 == 0 then 0xfb else 0xeb))
         else (if i & 2 == 0 then (if i & 1 == 0 then 0xcb else 0x8b) else (if i & 1 == 0 then 0x0b else 0x16))))
       else (
        if i & 8 == 0 then (
         if i & 4 == 0 then (if i & 2 == 0 then (if i & 1 == 0 then 0x2c else 0x58) else (if i & 1 == 0 then 0xb0 else 0x7d))
         else (if i & 2 == 0 then (if i & 1 == 0 then 0xfa else 0xe9) else (if i & 1 == 0 then 0xcf else 0x83)))
        else (
         if i & 4 == 0 then (if i & 2 == 0 then (if i & 1 == 0 then 0x1b else 0x36) else (if i & 1 == 0 then 0x6c else 0xd8))
         else (if i & 2 == 0 then (if i & 1 == 0 then 0xad else 0x47) else (if i & 1 == 0 then 0x8e else 0x01)))))))
  }

  /** gf256_log[i]: 0 is not a power and gets 0; the logarithm of 1 is 255, not 0. */
  function Log(i: bv8): bv8 {
    if i & 128 == 0 then (
     if i & 64 == 0 then (
      if i & 32 == 0 then (
       if i & 16 == 0 then (
        if i & 8 == 0 then (
         if i & 4 == 0 then (if i & 2 == 0 then (if i & 1 == 0 then 0x00 else 0xff) else (if i & 1 == 0 then 0x01 else 0x19))
         else (if i & 2 == 0 then (if i & 1 == 0 then 0x02 else 0x32) else (if i & 1 == 0 then 0x1a else 0xc6)))
        else (
         if i & 4 == 0 then (if i & 2 == 0 then (if i & 1 == 0 then 0x03 else 0xdf) else (if i & 1 == 0 then 0x33 else 0xee))
         else (if i & 2 == 0 then (if i & 1 == 0 then 0x1b else 0x68) else (if i & 1 == 0 then 0xc7 else 0x4b))))
       else (
        if i & 8 == 0 then (
         if i & 4 == 0 then (if i & 2 == 0 then (if i & 1 == 0 then 0x04 else 0x64) else (if i & 1 == 0 then 0xe0 else 0x0e))
         else (if i & 2 == 0 then (if i & 1 == 0 then 0x34 else 0x8d) else (if i & 1 == 0 then 0xef else 0x81)))
        else (
         if i & 4 == 0 then (if i & 2 == 0 then (if i & 1 == 0 then 0x1c else 0xc1) else (if i & 1 == 0 then 0x69 else 0xf8))
         else (if i & 2 == 0 then (if i & 1 == 0 then 0xc8 else 0x08) else (if i & 1 == 0 then 0x4c else 0x71)))))
      else (
       if i & 16 == 0 then (
        if i & 8 == 0 then (
         if i & 4 == 0 then (if i & 2 == 0 then (if i & 1 == 0 then 0x05 else 0x8a) else (if i & 1 == 0 then 0x65 else 0x2f))
         else (if i & 2 == 0 then (if i & 1 == 0 then 0xe1 else 0x24) else (if i & 1 == 0 then 0x0f else 0x21)))
        else (
         if i & 4 == 0 then (if i & 2 == 0 then (if i & 1 == 0 then 0x35 else 0x93) else (if i & 1 == 0 then 0x8e else 0xda))
         else (if i & 2 == 0 then (if i & 1 == 0 then 0xf0 else 0x12) else (if i & 1 == 0 then 0x82 else 0x45))))
       else (
        if i & 8 == 0 then (
         if i & 4 == 0 then (if i & 2 == 0 then (if i & 1 == 0 then 0x1d else 0xb5) else (if i & 1 == 0 then 0xc2 else 0x7d))
         else (if i & 2 == 0 then (if i & 1 == 0 then 0x6a else 0x27) else (if i & 1 == 0 then 0xf9 else 0xb9)))
        else (
         if i & 4 == 0 then (if i & 2 == 0 then (if i & 1 == 0 then 0xc9 else 0x9a) else (if i & 1 == 0 then 0x09 else 0x78))
         else (if i & 2 == 0 then (if i & 1 == 0 then 0x4d else 0xe4) else (if i & 1 == 0 then 0x72 else 0xa6))))))
     else (
      if i & 32 == 0 then (
       if i & 16 == 0 then (
        if i & 8 == 0 then (
         if i & 4 == 0 then (if i & 2 == 0 then (if i & 1 == 0 then 0x06 else 0xbf) else (if i & 1 == 0 then 0x8b else 0x62))
         else (if i & 2 == 0 then (if i & 1 == 0 then 0x66 else 0xdd) else (if i & 1 == 0 then 0x30 else 0xfd)))
        else (
         if i & 4 == 0 then (if i & 2 == 0 then (if i & 1 == 0 then 0xe2 else 0x98) else (if i & 1 == 0 then 0x25 else 0xb3))
         else (if i & 2 == 0 then (if i & 1 == 0 then 0x10 else 0x91) else (if i & 1 == 0 then 0x22 else 0x88))))
       else (
        if i & 8 == 0 then (
         if i & 4 == 0 then (if i & 2 == 0 then (if i & 1 == 0 then 0x36 else 0xd0) else (if i & 1 == 0 then 0x94 else 0xce))
         else (if i & 2 == 0 then (if i & 1 == 0 then 0x8f else 0x96) else (if i & 1 == 0 then 0xdb else 0xbd)))
        else (
         if i & 4 == 0 then (if i & 2 == 0 then (if i & 1 == 0 then 0xf1 else 0xd2) else (if i & 1 == 0 then 0x13 else 0x5c))
         else (if i & 2 == 0 then (if i & 1 == 0 then 0x83 else 0x38) else (if i & 1 == 0 then 0x46 else 0x40)))))
      else (
       if i & 16 == 0 then (
        if i & 8 == 0 then (
         if i & 4 == 0 then (if i & 2 == 0 then (if i & 1 == 0 then 0x1e else 0x42) else (if i & 1 == 0 then 0xb6 else 0xa3))
         else (if i & 2 == 0 then (if i & 1 == 0 then 0xc3 else 0x48) else (if i & 1 == 0 then 0x7e else 0x6e)))
        else (
         if i & 4 == 0 then (if i & 2 == 0 then (if i & 1 == 0 then 0x6b else 0x3a) else (if i & 1 == 0 then 0x28 else 0x54))
         else (if i & 2 == 0 then (if i & 1 == 0 then 0xfa else 0x85) else (if i & 1 == 0 then 0xba else 0x3d))))
       else (
        if i & 8 == 0 then (
         if i & 4 == 0 then (if i & 2 == 0 then (if i & 1 == 0 then 0xca else 0x5e) else (if i & 1 == 0 then 0x9b else 0x9f))
         else (if i & 2 == 0 then (if i & 1 == 0 then 0x0a else 0x15) else (if i & 1 == 0 then 0x79 else 0x2b)))
        else (
         if i & 4 == 0 then (if i & 2 == 0 then (if i & 1 == 0 then 0x4e else 0xd4) else (if i & 1 == 0 then 0xe5 else 0xac))
         else (if i & 2 == 0 then (if i & 1 == 0 then 0x73 else 0xf3) else (if i & 1 == 0 then 0xa7 else 0x57)))))))
    else (
     if i & 64 == 0 then (
      if i & 32 == 0 then (
       if i & 16 == 0 then (
        if i & 8 == 0 then (
         if i & 4 == 0 then (if i & 2 == 0 then (if i & 1 == 0 then 0x07 else 0x70) else (if i & 1 == 0 then 0xc0 else 0xf7))
         else (if i & 2 == 0 then (if i & 1 == 0 then 0x8c else 0x80) else (if i & 1 == 0 then 0x63 else 0x0d)))
        else (
         if i & 4 == 0 then (if i & 2 == 0 then (if i & 1 == 0 then 0x67 else 0x4a) else (if i & 1 == 0 then 0xde else 0xed))
         else (if i & 2 == 0 then (if i & 1 == 0 then 0x31 else 0xc5) else (if i & 1 == 0 then 0xfe else 0x18))))
       else (
        if i & 8 == 0 then (
         if i & 4 == 0 then (if i & 2 == 0 then (if i & 1 == 0 then 0xe3 else 0xa5) else (if i & 1 == 0 then 0x99 else 0x77))
         else (if i & 2 == 0 then (if i & 1 == 0 then 0x26 else 0xb8) else (if i & 1 == 0 then 0xb4 else 0x7c)))
        else (
         if i & 4 == 0 then (if i & 2 == 0 then (if i & 1 == 0 then 0x11 else 0x44) else (if i & 1 == 0 then 0x92 else 0xd9))
         else (if i & 2 == 0 then (if i & 1 == 0 then 0x23 else 0x20) else (if i & 1 == 0 then 0x89 else 0x2e)))))
      else (
       if i & 16 == 0 then (
        if i & 8 == 0 then (
         if i & 4 == 0 then (if i & 2 == 0 then (if i & 1 == 0 then 0x37 else 0x3f) else (if i & 1 == 0 then 0xd1 else 0x5b))
         else (if i & 2 == 0 then (if i & 1 == 0 then 0x95 else 0xbc) else (if i & 1 == 0 then 0xcf else 0xcd)))
        else (
         if i & 4 == 0 then (if i & 2 == 0 then (if i & 1 == 0 then 0x90 else 0x87) else (if i & 1 == 0 then 0x97 else 0xb2))
         else (if i & 2 == 0 then (if i & 1 == 0 then 0xdc else 0xfc) else (if i & 1 == 0 then 0xbe else 0x61))))
       else (
        if i & 8 == 0 then (
         if i & 4 == 0 then (if i & 2 == 0 then (if i & 1 == 0 then 0xf2 else 0x56) else (if i & 1 == 0 then 0xd3 else 0xab))
         else (if i & 2 == 0 then (if i & 1 == 0 then 0x14 else 0x2a) else (if i & 1 == 0 then 0x5d else 0x9e)))
        else (
         if i & 4 == 0 then (if i & 2 == 0 then (if i & 1 == 0 then 0x84 else 0x3c) else (if i & 1 == 0 then 0x39 else 0x53))
         else (if i & 2 == 0 then (if i & 1 == 0 then 0x47 else 0x6d) else (if i & 1 == 0 then 0x41 else 0xa2))))))
     else (
      if i & 32 == 0 then (
       if i & 16 == 0 then (
        if i & 8 == 0 then (
         if i & 4 == 0 then (if i & 2 == 0 then (if i & 1 == 0 then 0x1f else 0x2d) else (if i & 1 == 0 then 0x43 else 0xd8))
         else (if i & 2 == 0 then (if i & 1 == 0 then 0xb7 else 0x7b) else (if i & 1 == 0 then 0xa4 else 0x76)))
        else (
         if i & 4 == 0 then (if i & 2 == 0 then (if i & 1 == 0 then 0xc4 else 0x17) else (if i & 1 == 0 then 0x49 else 0xec))
         else (if i & 2 == 0 then (if i & 1 == 0 then 0x7f else 0x0c) else (if i & 1 == 0 then 0x6f else 0xf6))))
       else (
        if i & 8 == 0 then (
         if i & 4 == 0 then (if i & 2 == 0 then (if i & 1 == 0 then 0x6c else 0xa1) else (if i & 1 == 0 then 0x3b else 0x52))
         else (if i & 2 == 0 then (if i & 1 == 0 then 0x29 else 0x9d) else (if i & 1 == 0 then 0x55 else 0xaa)))
        else (
         if i & 4 == 0 then (if i & 2 == 0 then (if i & 1 == 0 then 0xfb else 0x60) else (if i & 1 == 0 then 0x86 else 0xb1))
         else (if i & 2 == 0 then (if i & 1 == 0 then 0xbb else 0xcc) else (if i & 1 == 0 then 0x3e else 0x5a)))))
      else (
       if i & 16 == 0 then (
        if i & 8 == 0 then (
         if i & 4 == 0 then (if i & 2 == 0 then (if i & 1 == 0 then 0xcb else 0x59) else (if i & 1 == 0 then 0x5f else 0xb0))
         else (if i & 2 == 0 then (if i & 1 == 0 then 0x9c else 0xa9) else (if i & 1 == 0 then 0xa0 else 0x51)))
        else (
         if i & 4 == 0 then (if i & 2 == 0 then (if i & 1 == 0 then 0x0b else 0xf5) else (if i & 1 == 0 then 0x16 else 0xeb))
         else (if i & 2 == 0 then (if i & 1 == 0 then 0x7a else 0x75) else (if i & 1 == 0 then 0x2c else 0xd7))))
       else (
        if i & 8 == 0 then (
         if i & 4 == 0 then (if i & 2 == 0 then (if i & 1 == 0 then 0x4f else 0xae) else (if i & 1 == 0 then 0xd5 else 0xe9))
         else (if i & 2 == 0 then (if i & 1 == 0 then 0xe6 else 0xe7) else (if i & 1 == 0 then 0xad else 0xe8)))
        else (
         if i & 4 == 0 then (if i & 2 == 0 then (if i & 1 == 0 then 0x74 else 0xd6) else (if i & 1 == 0 then 0xf4 else 0xea))
         else (if i & 2 == 0 then (if i & 1 == 0 then 0xa8 else 0x50) else (if i & 1 == 0 then 0x58 else 0xaf)))))))
  }

  /** Multiplication by x modulo the field polynomial. */
  function Xtime(b: bv8): bv8 {
    if b & 0x80 == 0 then b << 1 else (b << 1) ^ 0x1d
  }

  lemma ExpSteps(i: bv8)
    requires i < 255
    ensures Exp(i + 1) == Xtime(Exp(i))
  {
  }

  lemma ExpOfLog(b: bv8)
    requires b != 0
    ensures Log(b) != 0 && Exp(Log(b)) == b
  {
  }

  lemma LogOfExp(i: bv8)
    requires i != 0
    ensures Exp(i) != 0 && Log(Exp(i)) == i
  {
  }

  lemma ExpOne()
    ensures Exp(0) == 1 == Exp(255) && Exp(1) == 2
  {
  }

  lemma ShiftOfXor(a: bv8, b: bv8)
    ensures (a ^ b) << 1 == (a << 1) ^ (b << 1) && (a ^ b) & 0x80 == (a & 0x80) ^ (b & 0x80)
    ensures a & 0x80 == 0 || a & 0x80 == 0x80
  {
  }

  lemma XorRearrange(x: bv8, y: bv8, c: bv8)
    ensures (x ^ c) ^ (y ^ c) == x ^ y && (x ^ c) ^ y == (x ^ y) ^ c == x ^ (y ^ c)
  {
  }

  lemma XtimeLinear(a: bv8, b: bv8)
    ensures Xtime(a ^ b) == Xtime(a) ^ Xtime(b)
  {
    ShiftOfXor(a, b);
    ShiftOfXor(b, a);
    XorRearrange(a << 1, b << 1, 0x1d);
  }
}

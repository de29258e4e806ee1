/** The two constant tables of packages/seal/src/shamir.ts, entry for entry. Each is laid out as a
    decision tree on the bits of the index, in the source's order and sixteen entries to a row, so
    that one solver query can check a statement about every entry. */
module GF256Tables {

  /** Entry i of the source's EXP table: the i-th power of the generator 0x03, for i below 255.
      Entry 255 does not exist in the source and is never read. */
  function ExpTable(i: bv8): bv8 {
    if i & 0x80 == 0 then (
     if i & 0x40 == 0 then (
      if i & 0x20 == 0 then (
       if i & 0x10 == 0 then (
        if i & 8 == 0 then (if i & 4 == 0 then (
          if i & 2 == 0 then (if i & 1 == 0 then 0x01 else 0x03) else (if i & 1 == 0 then 0x05 else 0x0f)) else (
          if i & 2 == 0 then (if i & 1 == 0 then 0x11 else 0x33) else (if i & 1 == 0 then 0x55 else 0xff)))
        else (if i & 4 == 0 then (
          if i & 2 == 0 then (if i & 1 == 0 then 0x1a else 0x2e) else (if i & 1 == 0 then 0x72 else 0x96)) else (
          if i & 2 == 0 then (if i & 1 == 0 then 0xa1 else 0xf8) else (if i & 1 == 0 then 0x13 else 0x35))))
       else (
        if i & 8 == 0 then (if i & 4 == 0 then (
          if i & 2 == 0 then (if i & 1 == 0 then 0x5f else 0xe1) else (if i & 1 == 0 then 0x38 else 0x48)) else (
          if i & 2 == 0 then (if i & 1 == 0 then 0xd8 else 0x73) else (if i & 1 == 0 then 0x95 else 0xa4)))
        else (if i & 4 == 0 then (
          if i & 2 == 0 then (if i & 1 == 0 then 0xf7 else 0x02) else (if i & 1 == 0 then 0x06 else 0x0a)) else (
          if i & 2 == 0 then (if i & 1 == 0 then 0x1e else 0x22) else (if i & 1 == 0 then 0x66 else 0xaa)))))
      else (
       if i & 0x10 == 0 then (
        if i & 8 == 0 then (if i & 4 == 0 then (
          if i & 2 == 0 then (if i & 1 == 0 then 0xe5 else 0x34) else (if i & 1 == 0 then 0x5c else 0xe4)) else (
          if i & 2 == 0 then (if i & 1 == 0 then 0x37 else 0x59) else (if i & 1 == 0 then 0xeb else 0x26)))
        else (if i & 4 == 0 then (
          if i & 2 == 0 then (if i & 1 == 0 then 0x6a else 0xbe) else (if i & 1 == 0 then 0xd9 else 0x70)) else (
          if i & 2 == 0 then (if i & 1 == 0 then 0x90 else 0xab) else (if i & 1 == 0 then 0xe6 else 0x31))))
       else (
        if i & 8 == 0 then (if i & 4 == 0 then (
          if i & 2 == 0 then (if i & 1 == 0 then 0x53 else 0xf5) else (if i & 1 == 0 then 0x04 else 0x0c)) else (
          if i & 2 == 0 then (if i & 1 == 0 then 0x14 else 0x3c) else (if i & 1 == 0 then 0x44 else 0xcc)))
        else (if i & 4 == 0 then (
          if i & 2 == 0 then (if i & 1 == 0 then 0x4f else 0xd1) else (if i & 1 == 0 then 0x68 else 0xb8)) else (
          if i & 2 == 0 then (if i & 1 == 0 then 0xd3 else 0x6e) else (if i & 1 == 0 then 0xb2 else 0xcd))))))
     else (
      if i & 0x20 == 0 then (
       if i & 0x10 == 0 then (
        if i & 8 == 0 then (if i & 4 == 0 then (
          if i & 2 == 0 then (if i & 1 == 0 then 0x4c else 0xd4) else (if i & 1 == 0 then 0x67 else 0xa9)) else (
          if i & 2 == 0 then (if i & 1 == 0 then 0xe0 else 0x3b) else (if i & 1 == 0 then 0x4d else 0xd7)))
        else (if i & 4 == 0 then (
          if i & 2 == 0 then (if i & 1 == 0 then 0x62 else 0xa6) else (if i & 1 == 0 then 0xf1 else 0x08)) else (
          if i & 2 == 0 then (if i & 1 == 0 then 0x18 else 0x28) else (if i & 1 == 0 then 0x78 else 0x88))))
       else (
        if i & 8 == 0 then (if i & 4 == 0 then (
          if i & 2 == 0 then (if i & 1 == 0 then 0x83 else 0x9e) else (if i & 1 == 0 then 0xb9 else 0xd0)) else (
          if i & 2 == 0 then (if i & 1 == 0 then 0x6b else 0xbd) else (if i & 1 == 0 then 0xdc else 0x7f)))
        else (if i & 4 == 0 then (
          if i & 2 == 0 then (if i & 1 == 0 then 0x81 else 0x98) else (if i & 1 == 0 then 0xb3 else 0xce)) else (
          if i & 2 == 0 then (if i & 1 == 0 then 0x49 else 0xdb) else (if i & 1 == 0 then 0x76 else 0x9a)))))
      else (
       if i & 0x10 == 0 then (
        if i & 8 == 0 then (if i & 4 == 0 then (
          if i & 2 == 0 then (if i & 1 == 0 then 0xb5 else 0xc4) else (if i & 1 == 0 then 0x57 else 0xf9)) else (
          if i & 2 == 0 then (if i & 1 == 0 then 0x10 else 0x30) else (if i & 1 == 0 then 0x50 else 0xf0)))
        else (if i & 4 == 0 then (
          if i & 2 == 0 then (if i & 1 == 0 then 0x0b else 0x1d) else (if i & 1 == 0 then 0x27 else 0x69)) else (
          if i & 2 == 0 then (if i & 1 == 0 then 0xbb else 0xd6) else (if i & 1 == 0 then 0x61 else 0xa3))))
       else (
        if i & 8 == 0 then (if i & 4 == 0 then (
          if i & 2 == 0 then (if i & 1 == 0 then 0xfe else 0x19) else (if i & 1 == 0 then 0x2b else 0x7d)) else (
          if i & 2 == 0 then (if i & 1 == 0 then 0x87 else 0x92) else (if i & 1 == 0 then 0xad else 0xec)))
        else (if i & 4 == 0 then (
          if i & 2 == 0 then (if i & 1 == 0 then 0x2f else 0x71) else (if i & 1 == 0 then 0x93 else 0xae)) else (
          if i & 2 == 0 then (if i & 1 == 0 then 0xe9 else 0x20) else (if i & 1 == 0 then 0x60 else 0xa0)))))))
    else (
     if i & 0x40 == 0 then (
      if i & 0x20 == 0 then (
       if i & 0x10 == 0 then (
        if i & 8 == 0 then (if i & 4 == 0 then (
          if i & 2 == 0 then (if i & 1 == 0 then 0xfb else 0x16) else (if i & 1 == 0 then 0x3a else 0x4e)) else (
          if i & 2 == 0 then (if i & 1 == 0 then 0xd2 else 0x6d) else (if i & 1 == 0 then 0xb7 else 0xc2)))
        else (if i & 4 == 0 then (
          if i & 2 == 0 then (if i & 1 == 0 then 0x5d else 0xe7) else (if i & 1 == 0 then 0x32 else 0x56)) else (
          if i & 2 == 0 then (if i & 1 == 0 then 0xfa else 0x15) else (if i & 1 == 0 then 0x3f else 0x41))))
       else (
        if i & 8 == 0 then (if i & 4 == 0 then (
          if i & 2 == 0 then (if i & 1 == 0 then 0xc3 else 0x5e) else (if i & 1 == 0 then 0xe2 else 0x3d)) else (
          if i & 2 == 0 then (if i & 1 == 0 then 0x47 else 0xc9) else (if i & 1 == 0 then 0x40 else 0xc0)))
        else (if i & 4 == 0 then (
          if i & 2 == 0 then (if i & 1 == 0 then 0x5b else 0xed) else (if i & 1 == 0 then 0x2c else 0x74)) else (
          if i & 2 == 0 then (if i & 1 == 0 then 0x9c else 0xbf) else (if i & 1 == 0 then 0xda else 0x75)))))
      else (
       if i & 0x10 == 0 then (
        if i & 8 == 0 then (if i & 4 == 0 then (
          if i & 2 == 0 then (if i & 1 == 0 then 0x9f else 0xba) else (if i & 1 == 0 then 0xd5 else 0x64)) else (
          if i & 2 == 0 then (if i & 1 == 0 then 0xac else 0xef) else (if i & 1 == 0 then 0x2a else 0x7e)))
        else (if i & 4 == 0 then (
          if i & 2 == 0 then (if i & 1 == 0 then 0x82 else 0x9d) else (if i & 1 == 0 then 0xbc else 0xdf)) else (
          if i & 2 == 0 then (if i & 1 == 0 then 0x7a else 0x8e) else (if i & 1 == 0 then 0x89 else 0x80))))
       else (
        if i & 8 == 0 then (if i & 4 == 0 then (
          if i & 2 == 0 then (if i & 1 == 0 then 0x9b else 0xb6) else (if i & 1 == 0 then 0xc1 else 0x58)) else (
          if i & 2 == 0 then (if i & 1 == 0 then 0xe8 else 0x23) else (if i & 1 == 0 then 0x65 else 0xaf)))
        else (if i & 4 == 0 then (
          if i & 2 == 0 then (if i & 1 == 0 then 0xea else 0x25) else (if i & 1 == 0 then 0x6f else 0xb1)) else (
          if i & 2 == 0 then (if i & 1 == 0 then 0xc8 else 0x43) else (if i & 1 == 0 then 0xc5 else 0x54))))))
     else (
      if i & 0x20 == 0 then (
       if i & 0x10 == 0 then (
        if i & 8 == 0 then (if i & 4 == 0 then (
          if i & 2 == 0 then (if i & 1 == 0 then 0xfc else 0x1f) else (if i & 1 == 0 then 0x21 else 0x63)) else (
          if i & 2 == 0 then (if i & 1 == 0 then 0xa5 else 0xf4) else (if i & 1 == 0 then 0x07 else 0x09)))
        else (if i & 4 == 0 then (
          if i & 2 == 0 then (if i & 1 == 0 then 0x1b else 0x2d) else (if i & 1 == 0 then 0x77 else 0x99)) else (
          if i & 2 == 0 then (if i & 1 == 0 then 0xb0 else 0xcb) else (if i & 1 == 0 then 0x46 else 0xca))))
       else (
        if i & 8 == 0 then (if i & 4 == 0 then (
          if i & 2 == 0 then (if i & 1 == 0 then 0x45 else 0xcf) else (if i & 1 == 0 then 0x4a else 0xde)) else (
          if i & 2 == 0 then (if i & 1 == 0 then 0x79 else 0x8b) else (if i & 1 == 0 then 0x86 else 0x91)))
        else (if i & 4 == 0 then (
          if i & 2 == 0 then (if i & 1 == 0 then 0xa8 else 0xe3) else (if i & 1 == 0 then 0x3e else 0x42)) else (
          if i & 2 == 0 then (if i & 1 == 0 then 0xc6 else 0x51) else (if i & 1 == 0 then 0xf3 else 0x0e)))))
      else (
       if i & 0x10 == 0 then (
        if i & 8 == 0 then (if i & 4 == 0 then (
          if i & 2 == 0 then (if i & 1 == 0 then 0x12 else 0x36) else (if i & 1 == 0 then 0x5a else 0xee)) else (
          if i & 2 == 0 then (if i & 1 == 0 then 0x29 else 0x7b) else (if i & 1 == 0 then 0x8d else 0x8c)))
        else (if i & 4 == 0 then (
          if i & 2 == 0 then (if i & 1 == 0 then 0x8f else 0x8a) else (if i & 1 == 0 then 0x85 else 0x94)) else (
          if i & 2 == 0 then (if i & 1 == 0 then 0xa7 else 0xf2) else (if i & 1 == 0 then 0x0d else 0x17))))
       else (
        if i & 8 == 0 then (if i & 4 == 0 then (
          if i & 2 == 0 then (if i & 1 == 0 then 0x39 else 0x4b) else (if i & 1 == 0 then 0xdd else 0x7c)) else (
          if i & 2 == 0 then (if i & 1 == 0 then 0x84 else 0x97) else (if i & 1 == 0 then 0xa2 else 0xfd)))
        else (if i & 4 == 0 then (
          if i & 2 == 0 then (if i & 1 == 0 then 0x1c else 0x24) else (if i & 1 == 0 then 0x6c else 0xb4)) else (
          if i & 2 == 0 then (if i & 1 == 0 then 0xc7 else 0x52) else (if i & 1 == 0 then 0xf6 else 0x00)))))))
  }

  /** Entry i of the source's LOG table: the logarithm of the element i + 1, for i below 255.
      Entry 255 does not exist in the source and is never read. */
  function LogTable(i: bv8): bv8 {
    if i & 0x80 == 0 then (
     if i & 0x40 == 0 then (
      if i & 0x20 == 0 then (
       if i & 0x10 == 0 then (
        if i & 8 == 0 then (if i & 4 == 0 then (
          if i & 2 == 0 then (if i & 1 == 0 then 0x00 else 0x19) else (if i & 1 == 0 then 0x01 else 0x32)) else (
          if i & 2 == 0 then (if i & 1 == 0 then 0x02 else 0x1a) else (if i & 1 == 0 then 0xc6 else 0x4b)))
        else (if i & 4 == 0 then (
          if i & 2 == 0 then (if i & 1 == 0 then 0xc7 else 0x1b) else (if i & 1 == 0 then 0x68 else 0x33)) else (
          if i & 2 == 0 then (if i & 1 == 0 then 0xee else 0xdf) else (if i & 1 == 0 then 0x03 else 0x64))))
       else (
        if i & 8 == 0 then (if i & 4 == 0 then (
          if i & 2 == 0 then (if i & 1 == 0 then 0x04 else 0xe0) else (if i & 1 == 0 then 0x0e else 0x34)) else (
          if i & 2 == 0 then (if i & 1 == 0 then 0x8d else 0x81) else (if i & 1 == 0 then 0xef else 0x4c)))
        else (if i & 4 == 0 then (
          if i & 2 == 0 then (if i & 1 == 0 then 0x71 else 0x08) else (if i & 1 == 0 then 0xc8 else 0xf8)) else (
          if i & 2 == 0 then (if i & 1 == 0 then 0x69 else 0x1c) else (if i & 1 == 0 then 0xc1 else 0x7d)))))
      else (
       if i & 0x10 == 0 then (
        if i & 8 == 0 then (if i & 4 == 0 then (
          if i & 2 == 0 then (if i & 1 == 0 then 0xc2 else 0x1d) else (if i & 1 == 0 then 0xb5 else 0xf9)) else (
          if i & 2 == 0 then (if i & 1 == 0 then 0xb9 else 0x27) else (if i & 1 == 0 then 0x6a else 0x4d)))
        else (if i & 4 == 0 then (
          if i & 2 == 0 then (if i & 1 == 0 then 0xe4 else 0xa6) else (if i & 1 == 0 then 0x72 else 0x9a)) else (
          if i & 2 == 0 then (if i & 1 == 0 then 0xc9 else 0x09) else (if i & 1 == 0 then 0x78 else 0x65))))
       else (
        if i & 8 == 0 then (if i & 4 == 0 then (
          if i & 2 == 0 then (if i & 1 == 0 then 0x2f else 0x8a) else (if i & 1 == 0 then 0x05 else 0x21)) else (
          if i & 2 == 0 then (if i & 1 == 0 then 0x0f else 0xe1) else (if i & 1 == 0 then 0x24 else 0x12)))
        else (if i & 4 == 0 then (
          if i & 2 == 0 then (if i & 1 == 0 then 0xf0 else 0x82) else (if i & 1 == 0 then 0x45 else 0x35)) else (
          if i & 2 == 0 then (if i & 1 == 0 then 0x93 else 0xda) else (if i & 1 == 0 then 0x8e else 0x96))))))
     else (
      if i & 0x20 == 0 then (
       if i & 0x10 == 0 then (
        if i & 8 == 0 then (if i & 4 == 0 then (
          if i & 2 == 0 then (if i & 1 == 0 then 0x8f else 0xdb) else (if i & 1 == 0 then 0xbd else 0x36)) else (
          if i & 2 == 0 then (if i & 1 == 0 then 0xd0 else 0xce) else (if i & 1 == 0 then 0x94 else 0x13)))
        else (if i & 4 == 0 then (
          if i & 2 == 0 then (if i & 1 == 0 then 0x5c else 0xd2) else (if i & 1 == 0 then 0xf1 else 0x40)) else (
          if i & 2 == 0 then (if i & 1 == 0 then 0x46 else 0x83) else (if i & 1 == 0 then 0x38 else 0x66))))
       else (
        if i & 8 == 0 then (if i & 4 == 0 then (
          if i & 2 == 0 then (if i & 1 == 0 then 0xdd else 0xfd) else (if i & 1 == 0 then 0x30 else 0xbf)) else (
          if i & 2 == 0 then (if i & 1 == 0 then 0x06 else 0x8b) else (if i & 1 == 0 then 0x62 else 0xb3)))
        else (if i & 4 == 0 then (
          if i & 2 == 0 then (if i & 1 == 0 then 0x25 else 0xe2) else (if i & 1 == 0 then 0x98 else 0x22)) else (
          if i & 2 == 0 then (if i & 1 == 0 then 0x88 else 0x91) else (if i & 1 == 0 then 0x10 else 0x7e)))))
      else (
       if i & 0x10 == 0 then (
        if i & 8 == 0 then (if i & 4 == 0 then (
          if i & 2 == 0 then (if i & 1 == 0 then 0x6e else 0x48) else (if i & 1 == 0 then 0xc3 else 0xa3)) else (
          if i & 2 == 0 then (if i & 1 == 0 then 0xb6 else 0x1e) else (if i & 1 == 0 then 0x42 else 0x3a)))
        else (if i & 4 == 0 then (
          if i & 2 == 0 then (if i & 1 == 0 then 0x6b else 0x28) else (if i & 1 == 0 then 0x54 else 0xfa)) else (
          if i & 2 == 0 then (if i & 1 == 0 then 0x85 else 0x3d) else (if i & 1 == 0 then 0xba else 0x2b))))
       else (
        if i & 8 == 0 then (if i & 4 == 0 then (
          if i & 2 == 0 then (if i & 1 == 0 then 0x79 else 0x0a) else (if i & 1 == 0 then 0x15 else 0x9b)) else (
          if i & 2 == 0 then (if i & 1 == 0 then 0x9f else 0x5e) else (if i & 1 == 0 then 0xca else 0x4e)))
        else (if i & 4 == 0 then (
          if i & 2 == 0 then (if i & 1 == 0 then 0xd4 else 0xac) else (if i & 1 == 0 then 0xe5 else 0xf3)) else (
          if i & 2 == 0 then (if i & 1 == 0 then 0x73 else 0xa7) else (if i & 1 == 0 then 0x57 else 0xaf)))))))
    else (
     if i & 0x40 == 0 then (
      if i & 0x20 == 0 then (
       if i & 0x10 == 0 then (
        if i & 8 == 0 then (if i & 4 == 0 then (
          if i & 2 == 0 then (if i & 1 == 0 then 0x58 else 0xa8) else (if i & 1 == 0 then 0x50 else 0xf4)) else (
          if i & 2 == 0 then (if i & 1 == 0 then 0xea else 0xd6) else (if i & 1 == 0 then 0x74 else 0x4f)))
        else (if i & 4 == 0 then (
          if i & 2 == 0 then (if i & 1 == 0 then 0xae else 0xe9) else (if i & 1 == 0 then 0xd5 else 0xe7)) else (
          if i & 2 == 0 then (if i & 1 == 0 then 0xe6 else 0xad) else (if i & 1 == 0 then 0xe8 else 0x2c))))
       else (
        if i & 8 == 0 then (if i & 4 == 0 then (
          if i & 2 == 0 then (if i & 1 == 0 then 0xd7 else 0x75) else (if i & 1 == 0 then 0x7a else 0xeb)) else (
          if i & 2 == 0 then (if i & 1 == 0 then 0x16 else 0x0b) else (if i & 1 == 0 then 0xf5 else 0x59)))
        else (if i & 4 == 0 then (
          if i & 2 == 0 then (if i & 1 == 0 then 0xcb else 0x5f) else (if i & 1 == 0 then 0xb0 else 0x9c)) else (
          if i & 2 == 0 then (if i & 1 == 0 then 0xa9 else 0x51) else (if i & 1 == 0 then 0xa0 else 0x7f)))))
      else (
       if i & 0x10 == 0 then (
        if i & 8 == 0 then (if i & 4 == 0 then (
          if i & 2 == 0 then (if i & 1 == 0 then 0x0c else 0xf6) else (if i & 1 == 0 then 0x6f else 0x17)) else (
          if i & 2 == 0 then (if i & 1 == 0 then 0xc4 else 0x49) else (if i & 1 == 0 then 0xec else 0xd8)))
        else (if i & 4 == 0 then (
          if i & 2 == 0 then (if i & 1 == 0 then 0x43 else 0x1f) else (if i & 1 == 0 then 0x2d else 0xa4)) else (
          if i & 2 == 0 then (if i & 1 == 0 then 0x76 else 0x7b) else (if i & 1 == 0 then 0xb7 else 0xcc))))
       else (
        if i & 8 == 0 then (if i & 4 == 0 then (
          if i & 2 == 0 then (if i & 1 == 0 then 0xbb else 0x3e) else (if i & 1 == 0 then 0x5a else 0xfb)) else (
          if i & 2 == 0 then (if i & 1 == 0 then 0x60 else 0xb1) else (if i & 1 == 0 then 0x86 else 0x3b)))
        else (if i & 4 == 0 then (
          if i & 2 == 0 then (if i & 1 == 0 then 0x52 else 0xa1) else (if i & 1 == 0 then 0x6c else 0xaa)) else (
          if i & 2 == 0 then (if i & 1 == 0 then 0x55 else 0x29) else (if i & 1 == 0 then 0x9d else 0x97))))))
     else (
      if i & 0x20 == 0 then (
       if i & 0x10 == 0 then (
        if i & 8 == 0 then (if i & 4 == 0 then (
          if i & 2 == 0 then (if i & 1 == 0 then 0xb2 else 0x87) else (if i & 1 == 0 then 0x90 else 0x61)) else (
          if i & 2 == 0 then (if i & 1 == 0 then 0xbe else 0xdc) else (if i & 1 == 0 then 0xfc else 0xbc)))
        else (if i & 4 == 0 then (
          if i & 2 == 0 then (if i & 1 == 0 then 0x95 else 0xcf) else (if i & 1 == 0 then 0xcd else 0x37)) else (
          if i & 2 == 0 then (if i & 1 == 0 then 0x3f else 0x5b) else (if i & 1 == 0 then 0xd1 else 0x53))))
       else (
        if i & 8 == 0 then (if i & 4 == 0 then (
          if i & 2 == 0 then (if i & 1 == 0 then 0x39 else 0x84) else (if i & 1 == 0 then 0x3c else 0x41)) else (
          if i & 2 == 0 then (if i & 1 == 0 then 0xa2 else 0x6d) else (if i & 1 == 0 then 0x47 else 0x14)))
        else (if i & 4 == 0 then (
          if i & 2 == 0 then (if i & 1 == 0 then 0x2a else 0x9e) else (if i & 1 == 0 then 0x5d else 0x56)) else (
          if i & 2 == 0 then (if i & 1 == 0 then 0xf2 else 0xd3) else (if i & 1 == 0 then 0xab else 0x44)))))
      else (
       if i & 0x10 == 0 then (
        if i & 8 == 0 then (if i & 4 == 0 then (
          if i & 2 == 0 then (if i & 1 == 0 then 0x11 else 0x92) else (if i & 1 == 0 then 0xd9 else 0x23)) else (
          if i & 2 == 0 then (if i & 1 == 0 then 0x20 else 0x2e) else (if i & 1 == 0 then 0x89 else 0xb4)))
        else (if i & 4 == 0 then (
          if i & 2 == 0 then (if i & 1 == 0 then 0x7c else 0xb8) else (if i & 1 == 0 then 0x26 else 0x77)) else (
          if i & 2 == 0 then (if i & 1 == 0 then 0x99 else 0xe3) else (if i & 1 == 0 then 0xa5 else 0x67))))
       else (
        if i & 8 == 0 then (if i & 4 == 0 then (
          if i & 2 == 0 then (if i & 1 == 0 then 0x4a else 0xed) else (if i & 1 == 0 then 0xde else 0xc5)) else (
          if i & 2 == 0 then (if i & 1 == 0 then 0x31 else 0xfe) else (if i & 1 == 0 then 0x18 else 0x0d)))
        else (if i & 4 == 0 then (
          if i & 2 == 0 then (if i & 1 == 0 then 0x63 else 0x8c) else (if i & 1 == 0 then 0x80 else 0xc0)) else (
          if i & 2 == 0 then (if i & 1 == 0 then 0xf7 else 0x70) else (if i & 1 == 0 then 0x07 else 0x00)))))))
  }
}

/**
  The checksum of section 8 of RFC 1952: a loop over a table of 256 entries, and the same number one bit
  at a time.
 */
module Crc32 {

  type byte = b: bv32 | b < 0x100

  /** One step of the polynomial division, lowest bit first. */
  function Bit(crc: bv32): bv32 {
    if crc & 1 == 1 then (crc >> 1) ^ 0xedb88320 else crc >> 1
  }

  function TwoBits(crc: bv32): bv32 {
    Bit(Bit(crc))
  }

  function FourBits(crc: bv32): bv32 {
    TwoBits(TwoBits(crc))
  }

  function Octet(crc: bv32): bv32 {
    FourBits(FourBits(crc))
  }

  // -------- The table --------

  function Row0(i: bv32): bv32 {
    if i == 0x00 then 0x00000000 else if i == 0x01 then 0x77073096 else if i == 0x02 then 0xee0e612c else
    if i == 0x03 then 0x990951ba else if i == 0x04 then 0x076dc419 else if i == 0x05 then 0x706af48f else
    if i == 0x06 then 0xe963a535 else if i == 0x07 then 0x9e6495a3 else if i == 0x08 then 0x0edb8832 else
    if i == 0x09 then 0x79dcb8a4 else if i == 0x0a then 0xe0d5e91e else if i == 0x0b then 0x97d2d988 else
    if i == 0x0c then 0x09b64c2b else if i == 0x0d then 0x7eb17cbd else if i == 0x0e then 0xe7b82d07 else
    0x90bf1d91
  }

  function Row1(i: bv32): bv32 {
    if i == 0x10 then 0x1db71064 else if i == 0x11 then 0x6ab020f2 else if i == 0x12 then 0xf3b97148 else
    if i == 0x13 then 0x84be41de else if i == 0x14 then 0x1adad47d else if i == 0x15 then 0x6ddde4eb else
    if i == 0x16 then 0xf4d4b551 else if i == 0x17 then 0x83d385c7 else if i == 0x18 then 0x136c9856 else
    if i == 0x19 then 0x646ba8c0 else if i == 0x1a then 0xfd62f97a else if i == 0x1b then 0x8a65c9ec else
    if i == 0x1c then 0x14015c4f else if i == 0x1d then 0x63066cd9 else if i == 0x1e then 0xfa0f3d63 else
    0x8d080df5
  }

  function Row2(i: bv32): bv32 {
    if i == 0x20 then 0x3b6e20c8 else if i == 0x21 then 0x4c69105e else if i == 0x22 then 0xd56041e4 else
    if i == 0x23 then 0xa2677172 else if i == 0x24 then 0x3c03e4d1 else if i == 0x25 then 0x4b04d447 else
    if i == 0x26 then 0xd20d85fd else if i == 0x27 then 0xa50ab56b else if i == 0x28 then 0x35b5a8fa else
    if i == 0x29 then 0x42b2986c else if i == 0x2a then 0xdbbbc9d6 else if i == 0x2b then 0xacbcf940 else
    if i == 0x2c then 0x32d86ce3 else if i == 0x2d then 0x45df5c75 else if i == 0x2e then 0xdcd60dcf else
    0xabd13d59
  }

  function Row3(i: bv32): bv32 {
    if i == 0x30 then 0x26d930ac else if i == 0x31 then 0x51de003a else if i == 0x32 then 0xc8d75180 else
    if i == 0x33 then 0xbfd06116 else if i == 0x34 then 0x21b4f4b5 else if i == 0x35 then 0x56b3c423 else
    if i == 0x36 then 0xcfba9599 else if i == 0x37 then 0xb8bda50f else if i == 0x38 then 0x2802b89e else
    if i == 0x39 then 0x5f058808 else if i == 0x3a then 0xc60cd9b2 else if i == 0x3b then 0xb10be924 else
    if i == 0x3c then 0x2f6f7c87 else if i == 0x3d then 0x58684c11 else if i == 0x3e then 0xc1611dab else
    0xb6662d3d
  }

  function Row4(i: bv32): bv32 {
    if i == 0x40 then 0x76dc4190 else if i == 0x41 then 0x01db7106 else if i == 0x42 then 0x98d220bc else
    if i == 0x43 then 0xefd5102a else if i == 0x44 then 0x71b18589 else if i == 0x45 then 0x06b6b51f else
    if i == 0x46 then 0x9fbfe4a5 else if i == 0x47 then 0xe8b8d433 else if i == 0x48 then 0x7807c9a2 else
    if i == 0x49 then 0x0f00f934 else if i == 0x4a then 0x9609a88e else if i == 0x4b then 0xe10e9818 else
    if i == 0x4c then 0x7f6a0dbb else if i == 0x4d then 0x086d3d2d else if i == 0x4e then 0x91646c97 else
    0xe6635c01
  }

  function Row5(i: bv32): bv32 {
    if i == 0x50 then 0x6b6b51f4 else if i == 0x51 then 0x1c6c6162 else if i == 0x52 then 0x856530d8 else
    if i == 0x53 then 0xf262004e else if i == 0x54 then 0x6c0695ed else if i == 0x55 then 0x1b01a57b else
    if i == 0x56 then 0x8208f4c1 else if i == 0x57 then 0xf50fc457 else if i == 0x58 then 0x65b0d9c6 else
    if i == 0x59 then 0x12b7e950 else if i == 0x5a then 0x8bbeb8ea else if i == 0x5b then 0xfcb9887c else
    if i == 0x5c then 0x62dd1ddf else if i == 0x5d then 0x15da2d49 else if i == 0x5e then 0x8cd37cf3 else
    0xfbd44c65
  }

  function Row6(i: bv32): bv32 {
    if i == 0x60 then 0x4db26158 else if i == 0x61 then 0x3ab551ce else if i == 0x62 then 0xa3bc0074 else
    if i == 0x63 then 0xd4bb30e2 else if i == 0x64 then 0x4adfa541 else if i == 0x65 then 0x3dd895d7 else
    if i == 0x66 then 0xa4d1c46d else if i == 0x67 then 0xd3d6f4fb else if i == 0x68 then 0x4369e96a else
    if i == 0x69 then 0x346ed9fc else if i == 0x6a then 0xad678846 else if i == 0x6b then 0xda60b8d0 else
    if i == 0x6c then 0x44042d73 else if i == 0x6d then 0x33031de5 else if i == 0x6e then 0xaa0a4c5f else
    0xdd0d7cc9
  }

  function Row7(i: bv32): bv32 {
    if i == 0x70 then 0x5005713c else if i == 0x71 then 0x270241aa else if i == 0x72 then 0xbe0b1010 else
    if i == 0x73 then 0xc90c2086 else if i == 0x74 then 0x5768b525 else if i == 0x75 then 0x206f85b3 else
    if i == 0x76 then 0xb966d409 else if i == 0x77 then 0xce61e49f else if i == 0x78 then 0x5edef90e else
    if i == 0x79 then 0x29d9c998 else if i == 0x7a then 0xb0d09822 else if i == 0x7b then 0xc7d7a8b4 else
    if i == 0x7c then 0x59b33d17 else if i == 0x7d then 0x2eb40d81 else if i == 0x7e then 0xb7bd5c3b else
    0xc0ba6cad
  }

  function Row8(i: bv32): bv32 {
    if i == 0x80 then 0xedb88320 else if i == 0x81 then 0x9abfb3b6 else if i == 0x82 then 0x03b6e20c else
    if i == 0x83 then 0x74b1d29a else if i == 0x84 then 0xead54739 else if i == 0x85 then 0x9dd277af else
    if i == 0x86 then 0x04db2615 else if i == 0x87 then 0x73dc1683 else if i == 0x88 then 0xe3630b12 else
    if i == 0x89 then 0x94643b84 else if i == 0x8a then 0x0d6d6a3e else if i == 0x8b then 0x7a6a5aa8 else
    if i == 0x8c then 0xe40ecf0b else if i == 0x8d then 0x9309ff9d else if i == 0x8e then 0x0a00ae27 else
    0x7d079eb1
  }

  function Row9(i: bv32): bv32 {
    if i == 0x90 then 0xf00f9344 else if i == 0x91 then 0x8708a3d2 else if i == 0x92 then 0x1e01f268 else
    if i == 0x93 then 0x6906c2fe else if i == 0x94 then 0xf762575d else if i == 0x95 then 0x806567cb else
    if i == 0x96 then 0x196c3671 else if i == 0x97 then 0x6e6b06e7 else if i == 0x98 then 0xfed41b76 else
    if i == 0x99 then 0x89d32be0 else if i == 0x9a then 0x10da7a5a else if i == 0x9b then 0x67dd4acc else
    if i == 0x9c then 0xf9b9df6f else if i == 0x9d then 0x8ebeeff9 else if i == 0x9e then 0x17b7be43 else
    0x60b08ed5
  }

  function Row10(i: bv32): bv32 {
    if i == 0xa0 then 0xd6d6a3e8 else if i == 0xa1 then 0xa1d1937e else if i == 0xa2 then 0x38d8c2c4 else
    if i == 0xa3 then 0x4fdff252 else if i == 0xa4 then 0xd1bb67f1 else if i == 0xa5 then 0xa6bc5767 else
    if i == 0xa6 then 0x3fb506dd else if i == 0xa7 then 0x48b2364b else if i == 0xa8 then 0xd80d2bda else
    if i == 0xa9 then 0xaf0a1b4c else if i == 0xaa then 0x36034af6 else if i == 0xab then 0x41047a60 else
    if i == 0xac then 0xdf60efc3 else if i == 0xad then 0xa867df55 else if i == 0xae then 0x316e8eef else
    0x4669be79
  }

  function Row11(i: bv32): bv32 {
    if i == 0xb0 then 0xcb61b38c else if i == 0xb1 then 0xbc66831a else if i == 0xb2 then 0x256fd2a0 else
    if i == 0xb3 then 0x5268e236 else if i == 0xb4 then 0xcc0c7795 else if i == 0xb5 then 0xbb0b4703 else
    if i == 0xb6 then 0x220216b9 else if i == 0xb7 then 0x5505262f else if i == 0xb8 then 0xc5ba3bbe else
    if i == 0xb9 then 0xb2bd0b28 else if i == 0xba then 0x2bb45a92 else if i == 0xbb then 0x5cb36a04 else
    if i == 0xbc then 0xc2d7ffa7 else if i == 0xbd then 0xb5d0cf31 else if i == 0xbe then 0x2cd99e8b else
    0x5bdeae1d
  }

  function Row12(i: bv32): bv32 {
    if i == 0xc0 then 0x9b64c2b0 else if i == 0xc1 then 0xec63f226 else if i == 0xc2 then 0x756aa39c else
    if i == 0xc3 then 0x026d930a else if i == 0xc4 then 0x9c0906a9 else if i == 0xc5 then 0xeb0e363f else
    if i == 0xc6 then 0x72076785 else if i == 0xc7 then 0x05005713 else if i == 0xc8 then 0x95bf4a82 else
    if i == 0xc9 then 0xe2b87a14 else if i == 0xca then 0x7bb12bae else if i == 0xcb then 0x0cb61b38 else
    if i == 0xcc then 0x92d28e9b else if i == 0xcd then 0xe5d5be0d else if i == 0xce then 0x7cdcefb7 else
    0x0bdbdf21
  }

  function Row13(i: bv32): bv32 {
    if i == 0xd0 then 0x86d3d2d4 else if i == 0xd1 then 0xf1d4e242 else if i == 0xd2 then 0x68ddb3f8 else
    if i == 0xd3 then 0x1fda836e else if i == 0xd4 then 0x81be16cd else if i == 0xd5 then 0xf6b9265b else
    if i == 0xd6 then 0x6fb077e1 else if i == 0xd7 then 0x18b74777 else if i == 0xd8 then 0x88085ae6 else
    if i == 0xd9 then 0xff0f6a70 else if i == 0xda then 0x66063bca else if i == 0xdb then 0x11010b5c else
    if i == 0xdc then 0x8f659eff else if i == 0xdd then 0xf862ae69 else if i == 0xde then 0x616bffd3 else
    0x166ccf45
  }

  function Row14(i: bv32): bv32 {
    if i == 0xe0 then 0xa00ae278 else if i == 0xe1 then 0xd70dd2ee else if i == 0xe2 then 0x4e048354 else
    if i == 0xe3 then 0x3903b3c2 else if i == 0xe4 then 0xa7672661 else if i == 0xe5 then 0xd06016f7 else
    if i == 0xe6 then 0x4969474d else if i == 0xe7 then 0x3e6e77db else if i == 0xe8 then 0xaed16a4a else
    if i == 0xe9 then 0xd9d65adc else if i == 0xea then 0x40df0b66 else if i == 0xeb then 0x37d83bf0 else
    if i == 0xec then 0xa9bcae53 else if i == 0xed then 0xdebb9ec5 else if i == 0xee then 0x47b2cf7f else
    0x30b5ffe9
  }

  function Row15(i: bv32): bv32 {
    if i == 0xf0 then 0xbdbdf21c else if i == 0xf1 then 0xcabac28a else if i == 0xf2 then 0x53b39330 else
    if i == 0xf3 then 0x24b4a3a6 else if i == 0xf4 then 0xbad03605 else if i == 0xf5 then 0xcdd70693 else
    if i == 0xf6 then 0x54de5729 else if i == 0xf7 then 0x23d967bf else if i == 0xf8 then 0xb3667a2e else
    if i == 0xf9 then 0xc4614ab8 else if i == 0xfa then 0x5d681b02 else if i == 0xfb then 0x2a6f2b94 else
    if i == 0xfc then 0xb40bbe37 else if i == 0xfd then 0xc30c8ea1 else if i == 0xfe then 0x5a05df1b else
    0x2d02ef8d
  }

  /** The table: sixteen rows of sixteen entries. */
  function Table(i: byte): bv32 {
    if i < 0x10 then Row0(i)
    else if i < 0x20 then Row1(i)
    else if i < 0x30 then Row2(i)
    else if i < 0x40 then Row3(i)
    else if i < 0x50 then Row4(i)
    else if i < 0x60 then Row5(i)
    else if i < 0x70 then Row6(i)
    else if i < 0x80 then Row7(i)
    else if i < 0x90 then Row8(i)
    else if i < 0xa0 then Row9(i)
    else if i < 0xb0 then Row10(i)
    else if i < 0xc0 then Row11(i)
    else if i < 0xd0 then Row12(i)
    else if i < 0xe0 then Row13(i)
    else if i < 0xf0 then Row14(i)
    else Row15(i)
  }

  lemma Row0Is(i: bv32)
    requires 0x00 <= i <= 0x0f
    ensures Row0(i) == Octet(i)
  {
  }

  lemma Row1Is(i: bv32)
    requires 0x10 <= i <= 0x1f
    ensures Row1(i) == Octet(i)
  {
  }

  lemma Row2Is(i: bv32)
    requires 0x20 <= i <= 0x2f
    ensures Row2(i) == Octet(i)
  {
  }

  lemma Row3Is(i: bv32)
    requires 0x30 <= i <= 0x3f
    ensures Row3(i) == Octet(i)
  {
  }

  lemma Row4Is(i: bv32)
    requires 0x40 <= i <= 0x4f
    ensures Row4(i) == Octet(i)
  {
  }

  lemma Row5Is(i: bv32)
    requires 0x50 <= i <= 0x5f
    ensures Row5(i) == Octet(i)
  {
  }

  lemma Row6Is(i: bv32)
    requires 0x60 <= i <= 0x6f
    ensures Row6(i) == Octet(i)
  {
  }

  lemma Row7Is(i: bv32)
    requires 0x70 <= i <= 0x7f
    ensures Row7(i) == Octet(i)
  {
  }

  lemma Row8Is(i: bv32)
    requires 0x80 <= i <= 0x8f
    ensures Row8(i) == Octet(i)
  {
  }

  lemma Row9Is(i: bv32)
    requires 0x90 <= i <= 0x9f
    ensures Row9(i) == Octet(i)
  {
  }

  lemma Row10Is(i: bv32)
    requires 0xa0 <= i <= 0xaf
    ensures Row10(i) == Octet(i)
  {
  }

  lemma Row11Is(i: bv32)
    requires 0xb0 <= i <= 0xbf
    ensures Row11(i) == Octet(i)
  {
  }

  lemma Row12Is(i: bv32)
    requires 0xc0 <= i <= 0xcf
    ensures Row12(i) == Octet(i)
  {
  }

  lemma Row13Is(i: bv32)
    requires 0xd0 <= i <= 0xdf
    ensures Row13(i) == Octet(i)
  {
  }

  lemma Row14Is(i: bv32)
    requires 0xe0 <= i <= 0xef
    ensures Row14(i) == Octet(i)
  {
  }

  lemma Row15Is(i: bv32)
    requires 0xf0 <= i <= 0xff
    ensures Row15(i) == Octet(i)
  {
  }

  /** Every entry is what eight steps make of its index. */
  lemma TableIsOctet(i: byte)
    ensures Table(i) == Octet(i)
  {
    if i < 0x10 {
      Row0Is(i);
    } else if i < 0x20 {
      Row1Is(i);
    } else if i < 0x30 {
      Row2Is(i);
    } else if i < 0x40 {
      Row3Is(i);
    } else if i < 0x50 {
      Row4Is(i);
    } else if i < 0x60 {
      Row5Is(i);
    } else if i < 0x70 {
      Row6Is(i);
    } else if i < 0x80 {
      Row7Is(i);
    } else if i < 0x90 {
      Row8Is(i);
    } else if i < 0xa0 {
      Row9Is(i);
    } else if i < 0xb0 {
      Row10Is(i);
    } else if i < 0xc0 {
      Row11Is(i);
    } else if i < 0xd0 {
      Row12Is(i);
    } else if i < 0xe0 {
      Row13Is(i);
    } else if i < 0xf0 {
      Row14Is(i);
    } else {
      Row15Is(i);
    }
  }

  // -------- One byte --------

  function Xor(a: bv32, b: bv32): bv32 {
    a ^ b
  }

  function LowPart(crc: bv32): byte {
    crc & 0xff
  }

  function HighPart(crc: bv32): bv32 {
    crc & 0xffffff00
  }

  function Shifted(crc: bv32): bv32 {
    crc >> 8
  }

  lemma LowestBit(x: bv32, y: bv32)
    ensures (x ^ y) & 1 == (x & 1) ^ (y & 1) && (x ^ y) >> 1 == (x >> 1) ^ (y >> 1)
    ensures x & 1 == 0 || x & 1 == 1
    ensures y & 1 == 0 || y & 1 == 1
  {
  }

  lemma Cancel(a: bv32, b: bv32, p: bv32)
    ensures (a ^ p) ^ (b ^ p) == a ^ b && (a ^ p) ^ b == (a ^ b) ^ p && a ^ (b ^ p) == (a ^ b) ^ p
  {
  }

  lemma BitIsLinear(x: bv32, y: bv32)
    ensures Bit(Xor(x, y)) == Xor(Bit(x), Bit(y))
  {
    LowestBit(x, y);
    Cancel(x >> 1, y >> 1, 0xedb88320);
  }

  lemma TwoBitsAreLinear(x: bv32, y: bv32)
    ensures TwoBits(Xor(x, y)) == Xor(TwoBits(x), TwoBits(y))
  {
    hide Bit, Xor;
    BitIsLinear(x, y);
    BitIsLinear(Bit(x), Bit(y));
  }

  lemma FourBitsAreLinear(x: bv32, y: bv32)
    ensures FourBits(Xor(x, y)) == Xor(FourBits(x), FourBits(y))
  {
    hide TwoBits, Xor;
    TwoBitsAreLinear(x, y);
    TwoBitsAreLinear(TwoBits(x), TwoBits(y));
  }

  lemma OctetIsLinear(x: bv32, y: bv32)
    ensures Octet(Xor(x, y)) == Xor(Octet(x), Octet(y))
  {
    hide FourBits, Xor;
    FourBitsAreLinear(x, y);
    FourBitsAreLinear(FourBits(x), FourBits(y));
  }

  /** Eight steps only shift what is above the lowest octet. */
  lemma HighShifts(x: bv32)
    ensures Octet(HighPart(x)) == Shifted(x)
  {
  }

  lemma Halves(crc: bv32, p: byte)
    ensures var x := Xor(crc, p);
            Xor(LowPart(x), HighPart(x)) == x && Shifted(x) == Shifted(crc)
  {
  }

  /** One turn of the loop: the table entry does what eight steps do. */
  lemma TableStep(crc: bv32, p: byte)
    ensures Xor(Table(LowPart(Xor(crc, p))), Shifted(crc)) == Octet(Xor(crc, p))
  {
    hide Table, Octet, Xor, LowPart, HighPart, Shifted;
    var x := Xor(crc, p);
    Halves(crc, p);
    TableIsOctet(LowPart(x));
    HighShifts(x);
    OctetIsLinear(LowPart(x), HighPart(x));
  }

  // -------- Whole buffers --------

  /** The register after the data, one octet after the other. */
  function Register(crc: bv32, data: seq<byte>): bv32
    decreases |data|
  {
    if data == [] then crc else Register(Octet(Xor(crc, data[0])), data[1..])
  }

  function Complement(crc: bv32): bv32 {
    crc ^ 0xffffffff
  }

  function Crc(crc: bv32, data: seq<byte>): bv32 {
    Complement(Register(Complement(crc), data))
  }

  method CalcCrc32(crc0: bv32, buf: seq<byte>) returns (crc: bv32)
    ensures crc == Crc(crc0, buf)
  {
    hide Octet, Table, Xor, LowPart, Shifted;
    crc := Complement(crc0);
    var p := 0;
    while p < |buf|
      invariant p <= |buf|
      invariant Register(crc, buf[p..]) == Register(Complement(crc0), buf)
    {
      TableStep(crc, buf[p]);
      assert buf[p..][1..] == buf[p + 1..];
      crc := Xor(Table(LowPart(Xor(crc, buf[p]))), Shifted(crc));
      p := p + 1;
    }
    crc := Complement(crc);
  }

  /** Main result on splitting: the checksum of two buffers in turn is that of the buffers put together. */
  lemma InTurn(crc: bv32, a: seq<byte>, b: seq<byte>)
    ensures Crc(Crc(crc, a), b) == Crc(crc, a + b)
  {
    hide Register, Complement;
    var c := Complement(crc);
    RegisterInTurn(c, a, b);
    ComplementTwice(Register(c, a));
  }

  lemma ComplementTwice(c: bv32)
    ensures Complement(Complement(c)) == c
  {
  }

  lemma {:induction false} RegisterInTurn(crc: bv32, a: seq<byte>, b: seq<byte>)
    ensures Register(crc, a + b) == Register(Register(crc, a), b)
    decreases |a|
  {
    hide Octet, Xor;
    if a == [] {
      assert a + b == b;
    } else {
      assert (a + b)[1..] == a[1..] + b;
      RegisterInTurn(Octet(Xor(crc, a[0])), a[1..], b);
    }
  }

  // -------- One bit of the message at a time --------

  /** The lowest bit of the message meets the lowest bit of the register, `n` times. */
  function FeedBits(crc: bv32, q: bv32, n: nat): bv32
    decreases n
  {
    if n == 0 then crc else FeedBits(Bit(Xor(crc, Lowest(q))), Half(q), n - 1)
  }

  function Lowest(q: bv32): bv32 {
    q & 1
  }

  function Half(q: bv32): bv32 {
    q >> 1
  }

  function Bits(crc: bv32, n: nat): bv32
    decreases n
  {
    if n == 0 then crc else Bits(Bit(crc), n - 1)
  }

  function Halved(q: bv32, n: nat): bv32
    decreases n
  {
    if n == 0 then q else Halved(Half(q), n - 1)
  }

  /** The register as a reader of the standard would compute it. */
  function BitAtATime(crc: bv32, data: seq<byte>): bv32
    decreases |data|
  {
    if data == [] then crc else BitAtATime(FeedBits(crc, data[0], 8), data[1..])
  }

  lemma DropLowest(s: bv32, q: bv32)
    ensures Bit(Xor(Xor(s, q), Lowest(q))) == Xor(Bit(s), Half(q))
  {
    hide Bit, Xor, Lowest, Half;
    XorLowest(s, q);
    EvenHalves(q);
    BitIsLinear(s, Even(q));
  }

  function Even(q: bv32): bv32 {
    q & 0xfffffffe
  }

  lemma XorLowest(s: bv32, q: bv32)
    ensures Xor(Xor(s, q), Lowest(q)) == Xor(s, Even(q))
  {
  }

  lemma EvenHalves(q: bv32)
    ensures Bit(Even(q)) == Half(q)
  {
    assert (q & 0xfffffffe) & 1 == 0 && (q & 0xfffffffe) >> 1 == q >> 1;
  }

  lemma {:induction false} FeedingIsXor(s: bv32, q: bv32, n: nat)
    ensures FeedBits(Xor(s, q), q, n) == Xor(Bits(s, n), Halved(q, n))
    decreases n
  {
    hide Xor, Bit, Lowest, Half;
    if n > 0 {
      DropLowest(s, q);
      FeedingIsXor(Bit(s), Half(q), n - 1);
    }
  }

  lemma EightBits(x: bv32)
    ensures Bits(x, 8) == Octet(x)
  {
    hide Bit;
    assert Bits(x, 8) == Bits(Bit(Bit(x)), 6) == Bits(Bit(Bit(Bit(Bit(x)))), 4);
    assert Bits(Bit(Bit(Bit(Bit(x)))), 4) == Bits(Bit(Bit(Bit(Bit(Bit(Bit(x)))))), 2);
  }

  lemma EightHalves(p: byte)
    ensures Halved(p, 8) == 0
  {
    var q := Half(Half(Half(Half(p))));
    assert Halved(p, 8) == Halved(Half(Half(p)), 6) == Halved(q, 4) == Halved(Half(Half(q)), 2);
  }

  lemma XorSelf(crc: bv32, p: bv32)
    ensures Xor(Xor(crc, p), p) == crc && Xor(crc, 0) == crc
  {
  }

  lemma FeedsOctet(crc: bv32, p: byte)
    ensures FeedBits(crc, p, 8) == Octet(Xor(crc, p))
  {
    hide Xor, Octet, FeedBits, Bits, Halved;
    FeedingIsXor(Xor(crc, p), p, 8);
    EightBits(Xor(crc, p));
    EightHalves(p);
    XorSelf(crc, p);
    XorSelf(Octet(Xor(crc, p)), p);
  }

  lemma {:induction false} RegisterIsBitAtATime(crc: bv32, data: seq<byte>)
    ensures Register(crc, data) == BitAtATime(crc, data)
    decreases |data|
  {
    hide Xor, Octet, FeedBits;
    if data != [] {
      FeedsOctet(crc, data[0]);
      RegisterIsBitAtATime(Octet(Xor(crc, data[0])), data[1..]);
    }
  }

  /**
    Main result: what the loop over the table computes is the division one message bit at a time, begun and
    ended by inverting all 32 bits.
   */
  lemma TableIsBitAtATime(crc: bv32, data: seq<byte>)
    ensures Crc(crc, data) == BitAtATime(crc ^ 0xffff_ffff, data) ^ 0xffff_ffff
  {
    hide Register, BitAtATime;
    RegisterIsBitAtATime(crc ^ 0xffff_ffff, data);
  }

  // -------- Changes are noticed --------

  function Unbit(crc: bv32): bv32 {
    if crc & 0x80000000 != 0 then ((crc ^ 0xedb88320) << 1) | 1 else crc << 1
  }

  lemma TopBit(a: bv32)
    ensures ((a >> 1) ^ 0xedb88320) & 0x80000000 != 0 && (a >> 1) & 0x80000000 == 0
  {
  }

  lemma Restores(a: bv32)
    ensures (((a >> 1) ^ 0xedb88320) ^ 0xedb88320) << 1 == (a >> 1) << 1
    ensures a & 1 == 1 ==> ((a >> 1) << 1) | 1 == a
    ensures a & 1 != 1 ==> (a >> 1) << 1 == a
  {
  }

  /** A step of the division loses nothing. */
  lemma BitIsReversible(crc: bv32)
    ensures Unbit(Bit(crc)) == crc
  {
    TopBit(crc);
    Restores(crc);
  }

  lemma OctetIsInjective(x: bv32, y: bv32)
    requires Octet(x) == Octet(y)
    ensures x == y
  {
    hide Bit, Unbit;
    OctetIsReversible(x);
    OctetIsReversible(y);
  }

  function Unoctet(crc: bv32): bv32 {
    Unbit(Unbit(Unbit(Unbit(Unbit(Unbit(Unbit(Unbit(crc))))))))
  }

  lemma OctetIsReversible(x: bv32)
    ensures Unoctet(Octet(x)) == x
  {
    hide Bit, Unbit;
    var b1 := Bit(x);
    var b2 := Bit(b1);
    var b3 := Bit(b2);
    var b4 := Bit(b3);
    var b5 := Bit(b4);
    var b6 := Bit(b5);
    var b7 := Bit(b6);
    BitIsReversible(x);
    BitIsReversible(b1);
    BitIsReversible(b2);
    BitIsReversible(b3);
    BitIsReversible(b4);
    BitIsReversible(b5);
    BitIsReversible(b6);
    BitIsReversible(b7);
  }

  lemma {:induction false} RegisterIsInjective(x: bv32, y: bv32, data: seq<byte>)
    requires Register(x, data) == Register(y, data)
    ensures x == y
    decreases |data|
  {
    hide Octet, Xor;
    if data != [] {
      RegisterIsInjective(Octet(Xor(x, data[0])), Octet(Xor(y, data[0])), data[1..]);
      OctetIsInjective(Xor(x, data[0]), Xor(y, data[0]));
      XorIsInjective(x, y, data[0]);
    }
  }

  lemma XorIsInjective(x: bv32, y: bv32, p: bv32)
    ensures Xor(x, p) == Xor(y, p) ==> x == y
    ensures Xor(p, x) == Xor(p, y) ==> x == y
  {
    assert (x ^ p) ^ p == x && (y ^ p) ^ p == y && (p ^ x) ^ p == x && (p ^ y) ^ p == y;
  }

  /** Two messages that differ in one octet have different checksums. */
  lemma OneOctetIsNoticed(crc: bv32, before: seq<byte>, p: byte, q: byte, after: seq<byte>)
    requires p != q
    ensures Crc(crc, before + [p] + after) != Crc(crc, before + [q] + after)
  {
    hide Octet, Xor, Complement;
    var r := Register(Complement(crc), before);
    RegisterInTurn(Complement(crc), before + [p], after);
    RegisterInTurn(Complement(crc), before + [q], after);
    RegisterInTurn(Complement(crc), before, [p]);
    RegisterInTurn(Complement(crc), before, [q]);
    var x, y := Octet(Xor(r, p)), Octet(Xor(r, q));
    assert Register(r, [p]) == x && Register(r, [q]) == y;
    if x == y {
      OctetIsInjective(Xor(r, p), Xor(r, q));
      XorIsInjective(p, q, r);
      assert false;
    }
    if Register(x, after) == Register(y, after) {
      RegisterIsInjective(x, y, after);
      assert false;
    }
    ComplementTwice(Register(x, after));
    ComplementTwice(Register(y, after));
  }
}

/** The 256-word CRC-32 table.  A row holds sixteen consecutive words, an entry is found by its low nibble.
    Every row promises that its words are the GF(2)-linear combination of the eight power-of-two entries
    that its index selects; Crc32.dfy relates those eight to the polynomial. */
module Crc32Table {

  /** Addition of polynomials over GF(2), a coefficient in each bit. */
  function Xor(a: bv32, b: bv32): bv32 { a ^ b }

  /** Contribution of one index bit: the power-of-two entry if the bit is set. */
  function Term(i: bv8, mask: bv8, entry: bv32): bv32 {
    if i & mask == 0 then 0 else entry
  }

  /** XOR of the power-of-two entries selected by the bits of i. */
  function Combination(i: bv8): bv32 {
    Xor(Xor(Xor(Xor(Xor(Xor(Xor(
      Term(i, 1, 0x77073096), Term(i, 2, 0xEE0E612C)), Term(i, 4, 0x076DC419)), Term(i, 8, 0x0EDB8832)),
      Term(i, 16, 0x1DB71064)), Term(i, 32, 0x3B6E20C8)), Term(i, 64, 0x76DC4190)), Term(i, 128, 0xEDB88320))
  }

  function Pick(lo: bv8, a0: bv32, a1: bv32, a2: bv32, a3: bv32, a4: bv32, a5: bv32, a6: bv32, a7: bv32,
                a8: bv32, a9: bv32, aA: bv32, aB: bv32, aC: bv32, aD: bv32, aE: bv32, aF: bv32): bv32
  {
    if lo == 0 then a0 else if lo == 1 then a1 else if lo == 2 then a2 else if lo == 3 then a3 else
    if lo == 4 then a4 else if lo == 5 then a5 else if lo == 6 then a6 else if lo == 7 then a7 else
    if lo == 8 then a8 else if lo == 9 then a9 else if lo == 10 then aA else if lo == 11 then aB else
    if lo == 12 then aC else if lo == 13 then aD else if lo == 14 then aE else aF
  }

  function Row0(i: bv8): (word: bv32)
    ensures i >> 4 == 0 ==> word == Combination(i)
  {
    Pick(i & 15, 0x00000000, 0x77073096, 0xEE0E612C, 0x990951BA, 0x076DC419, 0x706AF48F, 0xE963A535, 0x9E6495A3,
         0x0EDB8832, 0x79DCB8A4, 0xE0D5E91E, 0x97D2D988, 0x09B64C2B, 0x7EB17CBD, 0xE7B82D07, 0x90BF1D91)
  }

  function Row1(i: bv8): (word: bv32)
    ensures i >> 4 == 1 ==> word == Combination(i)
  {
    Pick(i & 15, 0x1DB71064, 0x6AB020F2, 0xF3B97148, 0x84BE41DE, 0x1ADAD47D, 0x6DDDE4EB, 0xF4D4B551, 0x83D385C7,
         0x136C9856, 0x646BA8C0, 0xFD62F97A, 0x8A65C9EC, 0x14015C4F, 0x63066CD9, 0xFA0F3D63, 0x8D080DF5)
  }

  function Row2(i: bv8): (word: bv32)
    ensures i >> 4 == 2 ==> word == Combination(i)
  {
    Pick(i & 15, 0x3B6E20C8, 0x4C69105E, 0xD56041E4, 0xA2677172, 0x3C03E4D1, 0x4B04D447, 0xD20D85FD, 0xA50AB56B,
         0x35B5A8FA, 0x42B2986C, 0xDBBBC9D6, 0xACBCF940, 0x32D86CE3, 0x45DF5C75, 0xDCD60DCF, 0xABD13D59)
  }

  function Row3(i: bv8): (word: bv32)
    ensures i >> 4 == 3 ==> word == Combination(i)
  {
    Pick(i & 15, 0x26D930AC, 0x51DE003A, 0xC8D75180, 0xBFD06116, 0x21B4F4B5, 0x56B3C423, 0xCFBA9599, 0xB8BDA50F,
         0x2802B89E, 0x5F058808, 0xC60CD9B2, 0xB10BE924, 0x2F6F7C87, 0x58684C11, 0xC1611DAB, 0xB6662D3D)
  }

  function Row4(i: bv8): (word: bv32)
    ensures i >> 4 == 4 ==> word == Combination(i)
  {
    Pick(i & 15, 0x76DC4190, 0x01DB7106, 0x98D220BC, 0xEFD5102A, 0x71B18589, 0x06B6B51F, 0x9FBFE4A5, 0xE8B8D433,
         0x7807C9A2, 0x0F00F934, 0x9609A88E, 0xE10E9818, 0x7F6A0DBB, 0x086D3D2D, 0x91646C97, 0xE6635C01)
  }

  function Row5(i: bv8): (word: bv32)
    ensures i >> 4 == 5 ==> word == Combination(i)
  {
    Pick(i & 15, 0x6B6B51F4, 0x1C6C6162, 0x856530D8, 0xF262004E, 0x6C0695ED, 0x1B01A57B, 0x8208F4C1, 0xF50FC457,
         0x65B0D9C6, 0x12B7E950, 0x8BBEB8EA, 0xFCB9887C, 0x62DD1DDF, 0x15DA2D49, 0x8CD37CF3, 0xFBD44C65)
  }

  function Row6(i: bv8): (word: bv32)
    ensures i >> 4 == 6 ==> word == Combination(i)
  {
    Pick(i & 15, 0x4DB26158, 0x3AB551CE, 0xA3BC0074, 0xD4BB30E2, 0x4ADFA541, 0x3DD895D7, 0xA4D1C46D, 0xD3D6F4FB,
         0x4369E96A, 0x346ED9FC, 0xAD678846, 0xDA60B8D0, 0x44042D73, 0x33031DE5, 0xAA0A4C5F, 0xDD0D7CC9)
  }

  function Row7(i: bv8): (word: bv32)
    ensures i >> 4 == 7 ==> word == Combination(i)
  {
    Pick(i & 15, 0x5005713C, 0x270241AA, 0xBE0B1010, 0xC90C2086, 0x5768B525, 0x206F85B3, 0xB966D409, 0xCE61E49F,
         0x5EDEF90E, 0x29D9C998, 0xB0D09822, 0xC7D7A8B4, 0x59B33D17, 0x2EB40D81, 0xB7BD5C3B, 0xC0BA6CAD)
  }

  function Row8(i: bv8): (word: bv32)
    ensures i >> 4 == 8 ==> word == Combination(i)
  {
    Pick(i & 15, 0xEDB88320, 0x9ABFB3B6, 0x03B6E20C, 0x74B1D29A, 0xEAD54739, 0x9DD277AF, 0x04DB2615, 0x73DC1683,
         0xE3630B12, 0x94643B84, 0x0D6D6A3E, 0x7A6A5AA8, 0xE40ECF0B, 0x9309FF9D, 0x0A00AE27, 0x7D079EB1)
  }

  function Row9(i: bv8): (word: bv32)
    ensures i >> 4 == 9 ==> word == Combination(i)
  {
    Pick(i & 15, 0xF00F9344, 0x8708A3D2, 0x1E01F268, 0x6906C2FE, 0xF762575D, 0x806567CB, 0x196C3671, 0x6E6B06E7,
         0xFED41B76, 0x89D32BE0, 0x10DA7A5A, 0x67DD4ACC, 0xF9B9DF6F, 0x8EBEEFF9, 0x17B7BE43, 0x60B08ED5)
  }

  function RowA(i: bv8): (word: bv32)
    ensures i >> 4 == 10 ==> word == Combination(i)
  {
    Pick(i & 15, 0xD6D6A3E8, 0xA1D1937E, 0x38D8C2C4, 0x4FDFF252, 0xD1BB67F1, 0xA6BC5767, 0x3FB506DD, 0x48B2364B,
         0xD80D2BDA, 0xAF0A1B4C, 0x36034AF6, 0x41047A60, 0xDF60EFC3, 0xA867DF55, 0x316E8EEF, 0x4669BE79)
  }

  function RowB(i: bv8): (word: bv32)
    ensures i >> 4 == 11 ==> word == Combination(i)
  {
    Pick(i & 15, 0xCB61B38C, 0xBC66831A, 0x256FD2A0, 0x5268E236, 0xCC0C7795, 0xBB0B4703, 0x220216B9, 0x5505262F,
         0xC5BA3BBE, 0xB2BD0B28, 0x2BB45A92, 0x5CB36A04, 0xC2D7FFA7, 0xB5D0CF31, 0x2CD99E8B, 0x5BDEAE1D)
  }

  function RowC(i: bv8): (word: bv32)
    ensures i >> 4 == 12 ==> word == Combination(i)
  {
    Pick(i & 15, 0x9B64C2B0, 0xEC63F226, 0x756AA39C, 0x026D930A, 0x9C0906A9, 0xEB0E363F, 0x72076785, 0x05005713,
         0x95BF4A82, 0xE2B87A14, 0x7BB12BAE, 0x0CB61B38, 0x92D28E9B, 0xE5D5BE0D, 0x7CDCEFB7, 0x0BDBDF21)
  }

  function RowD(i: bv8): (word: bv32)
    ensures i >> 4 == 13 ==> word == Combination(i)
  {
    Pick(i & 15, 0x86D3D2D4, 0xF1D4E242, 0x68DDB3F8, 0x1FDA836E, 0x81BE16CD, 0xF6B9265B, 0x6FB077E1, 0x18B74777,
         0x88085AE6, 0xFF0F6A70, 0x66063BCA, 0x11010B5C, 0x8F659EFF, 0xF862AE69, 0x616BFFD3, 0x166CCF45)
  }

  function RowE(i: bv8): (word: bv32)
    ensures i >> 4 == 14 ==> word == Combination(i)
  {
    Pick(i & 15, 0xA00AE278, 0xD70DD2EE, 0x4E048354, 0x3903B3C2, 0xA7672661, 0xD06016F7, 0x4969474D, 0x3E6E77DB,
         0xAED16A4A, 0xD9D65ADC, 0x40DF0B66, 0x37D83BF0, 0xA9BCAE53, 0xDEBB9EC5, 0x47B2CF7F, 0x30B5FFE9)
  }

  function RowF(i: bv8): (word: bv32)
    ensures i >> 4 == 15 ==> word == Combination(i)
  {
    Pick(i & 15, 0xBDBDF21C, 0xCABAC28A, 0x53B39330, 0x24B4A3A6, 0xBAD03605, 0xCDD70693, 0x54DE5729, 0x23D967BF,
         0xB3667A2E, 0xC4614AB8, 0x5D681B02, 0x2A6F2B94, 0xB40BBE37, 0xC30C8EA1, 0x5A05DF1B, 0x2D02EF8D)
  }

  /** crc32_table[i] */
  function Entry(i: bv8): (word: bv32)
    ensures word == Combination(i)
  {
    match i >> 4
    case 0 => Row0(i)
    case 1 => Row1(i)
    case 2 => Row2(i)
    case 3 => Row3(i)
    case 4 => Row4(i)
    case 5 => Row5(i)
    case 6 => Row6(i)
    case 7 => Row7(i)
    case 8 => Row8(i)
    case 9 => Row9(i)
    case 10 => RowA(i)
    case 11 => RowB(i)
    case 12 => RowC(i)
    case 13 => RowD(i)
    case 14 => RowE(i)
    case _ => RowF(i)
  }
}

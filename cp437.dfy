/**
 * The fixed byte-to-character table of IBM Code Page 437, as the atlas
 * generator uses it to decide which Unicode character is drawn in each of
 * the 256 cells: a constant lookup table, written as one row per group of
 * sixteen codes.
 */
module Cp437 {
  import opened Base

  /** Codes 0x00..0x1F: 0 is drawn as a space, the rest as the IBM symbols. */
  const Control: seq<char> := [
    ' ', '\U{263A}', '\U{263B}', '\U{2665}', '\U{2666}', '\U{2663}', '\U{2660}', '\U{2022}',
    '\U{25D8}', '\U{25CB}', '\U{25D9}', '\U{2642}', '\U{2640}', '\U{266A}', '\U{266B}', '\U{263C}',
    '\U{25BA}', '\U{25C4}', '\U{2195}', '\U{203C}', '\U{00B6}', '\U{00A7}', '\U{25AC}', '\U{21A8}',
    '\U{2191}', '\U{2193}', '\U{2192}', '\U{2190}', '\U{221F}', '\U{2194}', '\U{25B2}', '\U{25BC}'
  ]

  /** Code 0x7F. */
  const House: char := '\U{2302}'

  /** Codes 0x80..0x8F. */
  const Row8: seq<char> := [
    '\U{00C7}', '\U{00FC}', '\U{00E9}', '\U{00E2}', '\U{00E4}', '\U{00E0}', '\U{00E5}', '\U{00E7}',
    '\U{00EA}', '\U{00EB}', '\U{00E8}', '\U{00EF}', '\U{00EE}', '\U{00EC}', '\U{00C4}', '\U{00C5}'
  ]

  /** Codes 0x90..0x9F. */
  const Row9: seq<char> := [
    '\U{00C9}', '\U{00E6}', '\U{00C6}', '\U{00F4}', '\U{00F6}', '\U{00F2}', '\U{00FB}', '\U{00F9}',
    '\U{00FF}', '\U{00D6}', '\U{00DC}', '\U{00A2}', '\U{00A3}', '\U{00A5}', '\U{20A7}', '\U{0192}'
  ]

  /** Codes 0xA0..0xAF. */
  const RowA: seq<char> := [
    '\U{00E1}', '\U{00ED}', '\U{00F3}', '\U{00FA}', '\U{00F1}', '\U{00D1}', '\U{00AA}', '\U{00BA}',
    '\U{00BF}', '\U{2310}', '\U{00AC}', '\U{00BD}', '\U{00BC}', '\U{00A1}', '\U{00AB}', '\U{00BB}'
  ]

  /** Codes 0xB0..0xBF. */
  const RowB: seq<char> := [
    '\U{2591}', '\U{2592}', '\U{2593}', '\U{2502}', '\U{2524}', '\U{2561}', '\U{2562}', '\U{2556}',
    '\U{2555}', '\U{2563}', '\U{2551}', '\U{2557}', '\U{255D}', '\U{255C}', '\U{255B}', '\U{2510}'
  ]

  /** Codes 0xC0..0xCF. */
  const RowC: seq<char> := [
    '\U{2514}', '\U{2534}', '\U{252C}', '\U{251C}', '\U{2500}', '\U{253C}', '\U{255E}', '\U{255F}',
    '\U{255A}', '\U{2554}', '\U{2569}', '\U{2566}', '\U{2560}', '\U{2550}', '\U{256C}', '\U{2567}'
  ]

  /** Codes 0xD0..0xDF. */
  const RowD: seq<char> := [
    '\U{2568}', '\U{2564}', '\U{2565}', '\U{2559}', '\U{2558}', '\U{2552}', '\U{2553}', '\U{256B}',
    '\U{256A}', '\U{2518}', '\U{250C}', '\U{2588}', '\U{2584}', '\U{258C}', '\U{2590}', '\U{2580}'
  ]

  /** Codes 0xE0..0xEF. */
  const RowE: seq<char> := [
    '\U{03B1}', '\U{00DF}', '\U{0393}', '\U{03C0}', '\U{03A3}', '\U{03C3}', '\U{00B5}', '\U{03C4}',
    '\U{03A6}', '\U{0398}', '\U{03A9}', '\U{03B4}', '\U{221E}', '\U{03C6}', '\U{03B5}', '\U{2229}'
  ]

  /** Codes 0xF0..0xFF. */
  const RowF: seq<char> := [
    '\U{2261}', '\U{00B1}', '\U{2265}', '\U{2264}', '\U{2320}', '\U{2321}', '\U{00F7}', '\U{2248}',
    '\U{00B0}', '\U{2219}', '\U{00B7}', '\U{221A}', '\U{207F}', '\U{00B2}', '\U{25A0}', ' '
  ]

  /** The sixteen characters of codes `16 * r .. 16 * r + 15`, for the extended rows 8..15. */
  function ExtendedRow(r: nat): (row: seq<char>)
    requires 8 <= r < 16
    ensures |row| == 16
  {
    match r
    case 8 => Row8
    case 9 => Row9
    case 10 => RowA
    case 11 => RowB
    case 12 => RowC
    case 13 => RowD
    case 14 => RowE
    case _ => RowF
  }

  /**
   * The character drawn for code `index`: the table is total on bytes, is the
   * identity on printable ASCII, and draws the null byte and 255 as a space
   * (255 is a plain U+0020 space, not a no-break space).
   */
  function CharOf(index: byte): (c: char)
    ensures 32 <= index <= 126 ==> c == index as char
    ensures index == 0 || index == 255 ==> c == ' '
  {
    if index < 0x20 then Control[index]
    else if index <= 0x7E then index as char
    else if index == 0x7F then House
    else ExtendedRow(index / 16)[index % 16]
  }

  /** Every extended character except that of code 255 lies at U+00A0 or above. */
  lemma ExtendedRowIsNotAscii(r: nat, k: nat)
    requires 8 <= r < 16 && k < 16 && 16 * r + k != 255
    ensures ExtendedRow(r)[k] >= '\U{00A0}'
  {
    match r
    case 8 => assert forall j | 0 <= j < 16 :: Row8[j] >= '\U{00A0}';
    case 9 => assert forall j | 0 <= j < 16 :: Row9[j] >= '\U{00A0}';
    case 10 => assert forall j | 0 <= j < 16 :: RowA[j] >= '\U{00A0}';
    case 11 => assert forall j | 0 <= j < 16 :: RowB[j] >= '\U{00A0}';
    case 12 => assert forall j | 0 <= j < 16 :: RowC[j] >= '\U{00A0}';
    case 13 => assert forall j | 0 <= j < 16 :: RowD[j] >= '\U{00A0}';
    case 14 => assert forall j | 0 <= j < 16 :: RowE[j] >= '\U{00A0}';
    case _ => assert forall j | 0 <= j < 15 :: RowF[j] >= '\U{00A0}';
  }

  /**
   * Outside printable ASCII, only the two "space" codes 0 and 255 land in
   * the ASCII range: every other code is drawn with a character of U+00A0
   * or above, so no extended code is drawn like a printable one.
   */
  lemma ExtendedCodesAreNotAscii(index: byte)
    requires !(32 <= index <= 126) && index != 0 && index != 255
    ensures CharOf(index) >= '\U{00A0}'
  {
    if index < 0x20 {
      assert forall k | 1 <= k < |Control| :: Control[k] >= '\U{00A0}';
    } else if index >= 0x80 {
      ExtendedRowIsNotAscii(index / 16, index % 16);
    }
  }

  /**
   * A printable ASCII character is drawn only for its own code, except that
   * the space is also drawn for codes 0 and 255.
   */
  lemma DrawnLikeAscii(index: byte, code: byte)
    requires 32 <= code <= 126
    ensures CharOf(index) == code as char <==> index == code || (code == 32 && (index == 0 || index == 255))
  {
    if !(32 <= index <= 126) && index != 0 && index != 255 {
      ExtendedCodesAreNotAscii(index);
    }
  }
}

/**
  The table of character properties in charmap.h, and what it says: which octets are control characters,
  PrintableString characters, or need care by RFC 2253.
 */
module CharMap {

  /** The bits of an entry. */
  predicate HasBit(v: nat, bit: nat)
    requires bit > 0
  {
    v / bit % 2 == 1
  }

  const ROW_0: seq<nat> := [2, 2, 2, 2, 2, 2, 2, 2, 2, 2, 2, 2, 2, 2, 2, 2]
  const ROW_1: seq<nat> := [2, 2, 2, 2, 2, 2, 2, 2, 2, 2, 2, 2, 2, 2, 2, 2]
  const ROW_2: seq<nat> := [120, 0, 1, 40, 0, 0, 0, 16, 16, 16, 0, 25, 25, 16, 16, 16]
  const ROW_3: seq<nat> := [16, 16, 16, 16, 16, 16, 16, 16, 16, 16, 16, 9, 9, 16, 9, 16]
  const ROW_4: seq<nat> := [0, 16, 16, 16, 16, 16, 16, 16, 16, 16, 16, 16, 16, 16, 16, 16]
  const ROW_5: seq<nat> := [16, 16, 16, 16, 16, 16, 16, 16, 16, 16, 16, 0, 1, 0, 0, 0]
  const ROW_6: seq<nat> := [0, 16, 16, 16, 16, 16, 16, 16, 16, 16, 16, 16, 16, 16, 16, 16]
  const ROW_7: seq<nat> := [16, 16, 16, 16, 16, 16, 16, 16, 16, 16, 16, 0, 0, 0, 0, 2]

  /** char_type */
  function CharTypeAt(c: nat): nat
    requires c < 128
  {
    if c < 16 then ROW_0[c]
    else if c < 32 then ROW_1[c - 16]
    else if c < 48 then ROW_2[c - 32]
    else if c < 64 then ROW_3[c - 48]
    else if c < 80 then ROW_4[c - 64]
    else if c < 96 then ROW_5[c - 80]
    else if c < 112 then ROW_6[c - 96]
    else ROW_7[c - 112]
  }

  /** The entries in groups. */
  lemma Entries(c: nat)
    requires c < 128
    ensures CharTypeAt(c) ==
            if c < 32 || c == 127 then 2
            else if c == ' ' as int then 120
            else if c == '#' as int then 40
            else if c == '"' as int || c == '\\' as int then 1
            else if c == '+' as int || c == ',' as int then 25
            else if c == ';' as int || c == '<' as int || c == '>' as int then 9
            else if '0' as int <= c <= '9' as int then 16
            else if 'A' as int <= c <= 'Z' as int || 'a' as int <= c <= 'z' as int then 16
            else if '\'' as int <= c <= ')' as int || '-' as int <= c <= '/' as int || c == ':' as int then 16
            else if c == '=' as int || c == '?' as int then 16
            else 0
  {
    if c < 32 {} else if c < 64 {} else if c < 96 {} else {}
  }
}

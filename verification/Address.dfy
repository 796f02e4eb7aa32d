/** Account addresses as the indexer's own checks describe them, without the checksum. */
module Address {
  const ADDRESS_CHARS := "023456789acdefghjklmnpqrstuvwxyz"

  predicate IsAddress(s: string) {
    |s| == 40 && s[0] == 'g' && s[1] == '1' && forall i :: 2 <= i < 40 ==> s[i] in ADDRESS_CHARS
  }

  /** The characters in their order: digits without 1, letters without b, i and o. */
  lemma AddressCharAt(i: nat)
    requires i < 32
    ensures ADDRESS_CHARS[i] as int ==
      (if i == 0 then '0' as int else if i <= 8 then '1' as int + i else if i == 9 then 'a' as int
       else if i <= 15 then 'c' as int + (i - 10) else if i <= 20 then 'j' as int + (i - 16) else 'p' as int + (i - 21))
  {
  }

  /** The pattern's class of characters, spelled as ranges. */
  lemma AddressCharsAre(c: char)
    ensures c in ADDRESS_CHARS
      <==> ('0' <= c <= '9' && c != '1') || ('a' <= c <= 'z' && c != 'b' && c != 'i' && c != 'o')
  {
    if i :| 0 <= i < 32 && ADDRESS_CHARS[i] == c {
      AddressCharAt(i);
    }
    if '0' <= c <= '9' && c != '1' {
      AddressCharAt(if c == '0' then 0 else c as int - '1' as int);
    } else if 'a' <= c <= 'z' && c != 'b' && c != 'i' && c != 'o' {
      AddressCharAt(if c == 'a' then 9 else if c <= 'h' then 10 + (c as int - 'c' as int)
                    else if c <= 'n' then 16 + (c as int - 'j' as int) else 21 + (c as int - 'p' as int));
    }
  }
}

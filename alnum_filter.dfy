/** filterChars: every byte that is not an ASCII letter or digit is replaced,
    in place, by a space. */
module AlnumFilter {
  import opened StdString

  /** isalpha(c) || isdigit(c) in the "C" locale: 'a'..'z', 'A'..'Z' and
      '0'..'9'; every other byte, 0x80 and above included, is not alphanumeric. */
  predicate IsAlnum(c: Byte)
  {
    var ch := c as int as char;
    ('a' <= ch <= 'z') || ('A' <= ch <= 'Z') || ('0' <= ch <= '9')
  }

  /** The byte replace_if leaves at one position. */
  function FilterByte(c: Byte): Byte
  {
    if IsAlnum(c) then c else Space
  }

  /** The value filterChars leaves in its argument. */
  function FilterAlnum(s: seq<Byte>): (r: seq<Byte>)
    ensures |r| == |s|
    ensures forall i :: 0 <= i < |s| && IsAlnum(s[i]) ==> r[i] == s[i]
    ensures forall i :: 0 <= i < |s| && !IsAlnum(s[i]) ==> r[i] == Space
  {
    if s == [] then [] else [FilterByte(s[0])] + FilterAlnum(s[1..])
  }

  /** A filtered string holds only letters, digits and spaces. */
  predicate IsClean(s: seq<Byte>)
  {
    forall i :: 0 <= i < |s| ==> IsAlnum(s[i]) || s[i] == Space
  }

  /** The strings filterChars leaves unchanged are exactly the clean ones. */
  lemma {:induction false} FilterFixedPoints(s: seq<Byte>)
    ensures FilterAlnum(s) == s <==> IsClean(s)
  {
  }

  /** Filtering twice is filtering once. */
  lemma {:induction false} FilterIdempotent(s: seq<Byte>)
    ensures FilterAlnum(FilterAlnum(s)) == FilterAlnum(s)
  {
  }

  /** filterChars(str): replace_if over the whole string, in place. */
  method FilterChars(a: array<Byte>)
    modifies a
    ensures a[..] == FilterAlnum(old(a[..]))
  {
    var i := 0;
    while i < a.Length
      invariant 0 <= i <= a.Length
      invariant forall k :: 0 <= k < i ==> a[k] == FilterByte(old(a[k]))
      invariant forall k :: i <= k < a.Length ==> a[k] == old(a[k])
    {
      if !IsAlnum(a[i]) {
        a[i] := Space;
      }
      i := i + 1;
    }
  }
}

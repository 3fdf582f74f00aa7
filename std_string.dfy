/** Bytes and the three std::string operations the line post-processing relies on:
    find_first_not_of, find and substr, with std::string::npos as "not found". */
module StdString {

  /** One byte of a std::string. The OCR engine returns UTF-8 text, and the
      post-processing works on it byte by byte. */
  newtype Byte = b: int | 0 <= b < 256

  /** The line delimiter '\n'. */
  const NewLine: Byte := 10

  /** The replacement byte ' '. */
  const Space: Byte := 32

  /** std::string::npos: the largest value of a 64-bit size_t. */
  const NPos: nat := 0xFFFF_FFFF_FFFF_FFFF

  /** Every std::string is shorter than npos (its max_size() is below npos). */
  predicate ValidString(s: seq<Byte>)
  {
    |s| < NPos
  }

  /** s.find_first_not_of(c, pos): the first index at or after pos whose byte
      is not c, or npos when there is none (in particular when pos >= s.size()). */
  function FindFirstNotOf(s: seq<Byte>, c: Byte, pos: nat): (r: nat)
    requires ValidString(s)
    ensures r == NPos || (pos <= r < |s| && s[r] != c)
    ensures forall i :: pos <= i < |s| && i < r ==> s[i] == c
    decreases |s| - pos
  {
    if pos >= |s| then NPos
    else if s[pos] != c then pos
    else FindFirstNotOf(s, c, pos + 1)
  }

  /** s.find(c, pos): the first index at or after pos whose byte is c, or npos
      when there is none. */
  function Find(s: seq<Byte>, c: Byte, pos: nat): (r: nat)
    requires ValidString(s)
    ensures r == NPos || (pos <= r < |s| && s[r] == c)
    ensures forall i :: pos <= i < |s| && i < r ==> s[i] != c
    decreases |s| - pos
  {
    if pos >= |s| then NPos
    else if s[pos] == c then pos
    else Find(s, c, pos + 1)
  }

  /** s.substr(pos, count): at most count bytes starting at pos; a count that
      runs past the end (npos among them) is cut at the end of the string. */
  function Substr(s: seq<Byte>, pos: nat, count: nat): (r: seq<Byte>)
    requires pos <= |s|
    ensures |r| <= count && pos + |r| <= |s| && r == s[pos..pos + |r|]
    ensures |r| < count ==> pos + |r| == |s|
  {
    if count < |s| - pos then s[pos..pos + count] else s[pos..]
  }
}

/** Small definitions shared by every module of the model: an optional value,
    bytes, and the two text searches the source performs with `in`, `index`
    and `join`. */
module Common {

  /** An optional value. */
  datatype Option<+T> = None | Some(value: T)

  /** One byte, as the base64 and UTF-8 layers see it. */
  type Byte = b: int | 0 <= b < 256

  /** Index of the first occurrence of `c` in `s` (Python's `s.index(c)`),
      or None when `c in s` is false. */
  function Find(s: string, c: char): (r: Option<nat>)
    ensures r.None? <==> c !in s
    ensures r.Some? ==> r.value < |s| && s[r.value] == c && c !in s[..r.value]
    ensures r.Some? ==> forall j | 0 <= j < r.value :: s[j] != c
  {
    if |s| == 0 then None
    else if s[0] == c then Some(0)
    else match Find(s[1..], c)
      case None => None
      case Some(k) =>
        assert s[..k + 1] == [s[0]] + s[1..][..k];
        Some(k + 1)
  }

  /** Text of ASCII characters only, as `str.encode("ascii")` accepts. */
  predicate Ascii(s: string)
  {
    forall i | 0 <= i < |s| :: s[i] as int < 128
  }

  /** Python's `sep.join(parts)`. */
  function Join(parts: seq<string>, sep: string): string
  {
    if |parts| == 0 then ""
    else if |parts| == 1 then parts[0]
    else Join(parts[..|parts| - 1], sep) + sep + parts[|parts| - 1]
  }
}

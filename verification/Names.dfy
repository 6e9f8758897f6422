/** Canonical object names, node ids and node addresses. */
module Names {
  import opened Base

  const MAX_OBJECT_NAME_LENGTH := 255

  /** The characters that `str.strip` takes for blanks. */
  predicate IsBlank(c: char) {
    var n := c as int;
    || 0x09 <= n <= 0x0D || 0x1C <= n <= 0x20 || n == 0x85 || n == 0xA0 || n == 0x1680
    || 0x2000 <= n <= 0x200A || n == 0x2028 || n == 0x2029 || n == 0x202F || n == 0x205F || n == 0x3000
  }

  function StripLeft(s: string): (t: string)
    ensures |t| <= |s|
  {
    if s != "" && IsBlank(s[0]) then StripLeft(s[1..]) else s
  }

  function StripRight(s: string): (t: string)
    ensures |t| <= |s|
  {
    if s != "" && IsBlank(s[|s| - 1]) then StripRight(s[..|s| - 1]) else s
  }

  function Strip(s: string): string {
    StripRight(StripLeft(s))
  }

  /** Nothing to strip at either end. */
  predicate Stripped(s: string) {
    s == "" || (!IsBlank(s[0]) && !IsBlank(s[|s| - 1]))
  }

  lemma {:induction false} StripLeftEnds(s: string)
    ensures StripLeft(s) == "" || !IsBlank(StripLeft(s)[0])
  {
    if s != "" && IsBlank(s[0]) {
      StripLeftEnds(s[1..]);
    }
  }

  lemma {:induction false} StripRightEnds(s: string)
    ensures StripRight(s) == "" || (!IsBlank(StripRight(s)[|StripRight(s)| - 1]) && StripRight(s)[0] == s[0])
  {
    if s != "" && IsBlank(s[|s| - 1]) {
      StripRightEnds(s[..|s| - 1]);
    }
  }

  /** Stripping leaves no blank at either end, and leaves what has none alone. */
  lemma StripIsCanonical(s: string)
    ensures Stripped(Strip(s))
    ensures Stripped(s) ==> Strip(s) == s
  {
    StripLeftEnds(s);
    StripRightEnds(StripLeft(s));
  }

  function StripSlashes(s: string): string {
    if s != "" && s[|s| - 1] == '/' then StripSlashes(s[..|s| - 1]) else s
  }

  predicate IsControl(c: char) {
    c as int < 0x20 || c as int == 0x7F
  }

  predicate IsName(s: string) {
    Stripped(s) && 0 < |s| <= MAX_OBJECT_NAME_LENGTH && forall i :: 0 <= i < |s| ==> !IsControl(s[i])
  }

  /** `normalize_object_name`: the canonical name, if there is one. */
  function NormalizeName(s: string): (r: Option<string>)
    ensures r.Some? ==> IsName(r.value)
    ensures IsName(s) ==> r == Some(s)
  {
    StripIsCanonical(s);
    var n := Strip(s);
    if n == "" || |n| > MAX_OBJECT_NAME_LENGTH || exists i :: 0 <= i < |n| && IsControl(n[i]) then None else Some(n)
  }

  /** Where a node is reached; trailing slashes do not matter. */
  function NormalizeAddress(s: string): string {
    StripSlashes(Strip(s))
  }
}

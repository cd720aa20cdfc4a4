/** String helpers with the meaning the script relies on: lower-casing for
    case-insensitive comparison, and the POSIX flavour of `os.path.dirname`
    and `os.path.join` (separator `/`). */
module Text {

  const Sep: char := '/'

  /** Lower-case mapping of one character; only ASCII letters change. */
  function LowerChar(c: char): char {
    if 'A' <= c <= 'Z' then (c as int + 32) as char else c
  }

  /** `s.lower()`, restricted to ASCII case mapping. */
  function Lower(s: string): (r: string)
    ensures |r| == |s|
    ensures forall i :: 0 <= i < |s| ==> r[i] == LowerChar(s[i])
    // No upper-case ASCII letter is left; each one moves to its lower-case
    // partner, and every other character is kept.
    ensures forall i :: 0 <= i < |r| ==> !('A' <= r[i] <= 'Z')
    ensures forall i :: 0 <= i < |s| && 'A' <= s[i] <= 'Z' ==> r[i] as int == s[i] as int + 32
    ensures forall i :: 0 <= i < |s| && !('A' <= s[i] <= 'Z') ==> r[i] == s[i]
  {
    seq(|s|, i requires 0 <= i < |s| => LowerChar(s[i]))
  }

  /** Lower-casing twice is lower-casing once. */
  lemma LowerIsIdempotent(s: string)
    ensures Lower(Lower(s)) == Lower(s)
  {
  }

  /** A string is its own lower-case form exactly when it has no upper-case ASCII letter. */
  lemma LowerFixesExactlyLowerCase(s: string)
    ensures Lower(s) == s <==> forall i :: 0 <= i < |s| ==> !('A' <= s[i] <= 'Z')
  {
  }

  /** Case-insensitive equality as the script tests it: `a.lower() == b.lower()`. */
  predicate SameIgnoringCase(a: string, b: string) {
    Lower(a) == Lower(b)
  }

  /** `f'"{s}"'`: the text wrapped in double quotes. */
  function Quote(s: string): (r: string)
    ensures |r| == |s| + 2 && r[0] == '"' && r[|r| - 1] == '"'
    ensures r[1..|r| - 1] == s
  {
    "\"" + s + "\""
  }

  predicate AllSep(h: string) {
    forall k :: 0 <= k < |h| ==> h[k] == Sep
  }

  /** `p.rfind(sep) + 1`: where the final path component starts. */
  function BaseStart(p: string): (i: nat)
    ensures i <= |p|
    ensures i > 0 ==> p[i - 1] == Sep
    ensures forall k :: i <= k < |p| ==> p[k] != Sep
  {
    if p == [] then 0
    else if p[|p| - 1] == Sep then |p|
    else BaseStart(p[..|p| - 1])
  }

  /** `h.rstrip(sep)`. */
  function StripTrailingSeps(h: string): (r: string)
    ensures |r| <= |h| && r == h[..|r|]
    ensures forall k :: |r| <= k < |h| ==> h[k] == Sep
    ensures r == [] || r[|r| - 1] != Sep
  {
    if h != [] && h[|h| - 1] == Sep then StripTrailingSeps(h[..|h| - 1]) else h
  }

  /** POSIX `os.path.dirname`: everything before the final component, with
      trailing separators removed unless the head consists only of them. */
  function DirName(p: string): (d: string)
    ensures |d| <= BaseStart(p) && d == p[..|d|]
    ensures d == [] <==> BaseStart(p) == 0
    ensures forall k :: |d| <= k < BaseStart(p) ==> p[k] == Sep
    ensures d != [] && d[|d| - 1] == Sep ==> d == p[..BaseStart(p)] && AllSep(d)
  {
    var head := p[..BaseStart(p)];
    if head != [] && !AllSep(head) then StripTrailingSeps(head) else head
  }

  /** POSIX `os.path.join(a, b)`. */
  function Join(a: string, b: string): (r: string)
    // An absolute second part replaces the first.
    ensures b != [] && b[0] == Sep ==> r == b
    // Otherwise the parts are kept in order, with one separator put between
    // them exactly when `a` is non-empty and does not already end in one.
    ensures !(b != [] && b[0] == Sep) ==>
              && |r| == |a| + |b| + (if a != [] && a[|a| - 1] != Sep then 1 else 0)
              && a == r[..|a|] && r[|r| - |b|..] == b
              && (|r| > |a| + |b| ==> r[|a|] == Sep)
  {
    if b != [] && b[0] == Sep then b
    else if a == [] || a[|a| - 1] == Sep then a + b
    else a + [Sep] + b
  }
}

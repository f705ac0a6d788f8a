/**
 * The few Python string and path primitives the request handler relies on:
 * `str.endswith`, the slice `s[-n:]`, `str.lower`, `os.path.join` and
 * `os.path.splitext`, all on POSIX paths written as strings.
 */
module PyPaths {

  /** `s.endswith(suffix)`. */
  predicate EndsWith(s: string, suffix: string) {
    |suffix| <= |s| && s[|s| - |suffix|..] == suffix
  }

  /** The slice `s[-n:]` for a positive n: the last n characters, or all of `s` when it is shorter. */
  function Tail(s: string, n: nat): string
    requires 0 < n
  {
    if |s| < n then s else s[|s| - n..]
  }

  function LowerChar(c: char): (d: char)
    ensures 'A' <= c <= 'Z' ==> 'a' <= d <= 'z' && d as int - 'a' as int == c as int - 'A' as int
    ensures !('A' <= c <= 'Z') ==> d == c
  {
    if 'A' <= c <= 'Z' then (c as int - 'A' as int + 'a' as int) as char else c
  }

  lemma EndsWithTrans(s: string, t: string, u: string)
    requires EndsWith(s, t) && EndsWith(t, u)
    ensures EndsWith(s, u)
  {
    assert s[|s| - |u|..] == s[|s| - |t|..][|t| - |u|..];
  }

  /** `s.lower()`, folding the ASCII letters only. */
  function Lower(s: string): (r: string)
    ensures |r| == |s|
    ensures forall i | 0 <= i < |s| :: r[i] == LowerChar(s[i])
  {
    if s == [] then [] else [LowerChar(s[0])] + Lower(s[1..])
  }

  /** `s.lower() == t`, compared character by character. */
  predicate LowerEquals(s: string, t: string) {
    if s == [] then t == []
    else t != [] && LowerChar(s[0]) == t[0] && LowerEquals(s[1..], t[1..])
  }

  lemma {:induction false} LowerEqualsIff(s: string, t: string)
    ensures LowerEquals(s, t) <==> Lower(s) == t
  {
    if s != [] && t != [] {
      LowerEqualsIff(s[1..], t[1..]);
      assert Lower(s) == [LowerChar(s[0])] + Lower(s[1..]);
      assert t == [t[0]] + t[1..];
    }
  }

  /** `s.rfind(c)`: the index of the last occurrence of `c`, or -1. */
  function LastIndex(s: string, c: char): (r: int)
    ensures -1 <= r < |s|
    ensures r >= 0 ==> s[r] == c
    ensures forall j | r < j < |s| :: s[j] != c
  {
    if s == [] then -1
    else if s[|s| - 1] == c then |s| - 1
    else LastIndex(s[..|s| - 1], c)
  }

  lemma LastIndexAt(s: string, c: char, k: nat)
    requires k < |s| && s[k] == c
    requires forall j | k < j < |s| :: s[j] != c
    ensures LastIndex(s, c) == k
  {
  }

  lemma LastIndexBelow(s: string, c: char, k: nat)
    requires k <= |s|
    requires forall j | k <= j < |s| :: s[j] != c
    ensures LastIndex(s, c) < k
  {
  }

  /**
   * `os.path.join(a, b)` on POSIX: an absolute `b` replaces `a`; otherwise `b`
   * is appended, with a '/' in between unless `a` is empty or already ends in one.
   */
  function Join(a: string, b: string): string {
    if |b| > 0 && b[0] == '/' then b
    else if a == [] || a[|a| - 1] == '/' then a + b
    else a + "/" + b
  }

  /** The joined path ends with the name joined in. */
  lemma JoinEndsWith(a: string, b: string)
    ensures EndsWith(Join(a, b), b)
  {
    var r := Join(a, b);
    if !(|b| > 0 && b[0] == '/') {
      assert r[|r| - |b|..] == b;
    }
  }

  /**
   * The file name of `p` (what follows its last '/') has a character other
   * than '.' before its last '.': the condition under which `os.path.splitext`
   * splits off an extension. Leading dots of a file name never start one.
   */
  predicate HasStem(p: string) {
    exists i | LastIndex(p, '/') < i < LastIndex(p, '.') :: p[i] != '.'
  }

  /** The extension `os.path.splitext(p)` returns: from the last '.' of the file name on, or "". */
  function Ext(p: string): (e: string)
    ensures e != [] <==> HasStem(p)
    ensures e != [] ==> e[0] == '.' && EndsWith(p, e)
    ensures forall j | 0 < j < |e| :: e[j] != '.' && e[j] != '/'
  {
    if HasStem(p) then p[LastIndex(p, '.')..] else ""
  }
}

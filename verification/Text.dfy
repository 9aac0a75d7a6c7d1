/** The string operations the modelled code borrows from Python: `in`, `str.replace`,
    `str.split`, `str.join` and `str.strip`. */
module Text {

  predicate OccursAt(p: string, s: string, i: int) {
    0 <= i && i + |p| <= |s| && s[i..i + |p|] == p
  }

  /** Python's `p in s`. */
  predicate Contains(s: string, p: string) {
    exists i | 0 <= i <= |s| :: OccursAt(p, s, i)
  }

  /** Python's `s.replace(p, r)`: leftmost matches first, never overlapping. */
  function ReplaceAll(s: string, p: string, r: string): string
    requires p != ""
  {
    if s == "" then ""
    else if p <= s then r + ReplaceAll(s[|p|..], p, r)
    else [s[0]] + ReplaceAll(s[1..], p, r)
  }

  /** Python's `s.split(sep)`. */
  function Split(s: string, sep: string): (parts: seq<string>)
    requires sep != ""
    ensures parts != []
  {
    if s == "" then [""]
    else if sep <= s then [""] + Split(s[|sep|..], sep)
    else
      var rest := Split(s[1..], sep);
      [[s[0]] + rest[0]] + rest[1..]
  }

  /** Python's `sep.join(parts)`. */
  function Join(parts: seq<string>, sep: string): string {
    if parts == [] then ""
    else if |parts| == 1 then parts[0]
    else parts[0] + sep + Join(parts[1..], sep)
  }

  /** Python's `s.strip()`. */
  function Strip(s: string): string {
    if s != "" && IsSpace(s[0]) then Strip(s[1..])
    else if s != "" && IsSpace(s[|s| - 1]) then Strip(s[..|s| - 1])
    else s
  }

  /** Python's `c.isspace()`. */
  predicate IsSpace(c: char) {
    || '\U{09}' <= c <= '\U{0D}' || '\U{1C}' <= c <= '\U{20}'
    || c == '\U{85}' || c == '\U{A0}' || c == '\U{1680}' || '\U{2000}' <= c <= '\U{200A}'
    || c == '\U{2028}' || c == '\U{2029}' || c == '\U{202F}' || c == '\U{205F}' || c == '\U{3000}'
  }

  predicate IsDigit(c: char) {
    '0' <= c <= '9'
  }

  predicate IsLetter(c: char) {
    'a' <= c <= 'z' || 'A' <= c <= 'Z'
  }

  /** Python's `str.lower` on ASCII text. */
  function Lower(s: string): (r: string)
    ensures |r| == |s|
    ensures forall i | 0 <= i < |s| :: r[i] == LowerChar(s[i])
  {
    if s == "" then "" else [LowerChar(s[0])] + Lower(s[1..])
  }

  function LowerChar(c: char): char {
    if 'A' <= c <= 'Z' then c + 32 as char else c
  }

  lemma OccursInContext(u: string, m: string, v: string)
    ensures OccursAt(m, u + m + v, |u|)
    ensures Contains(u + m + v, m)
  {
    assert (u + m + v)[|u|..|u| + |m|] == m;
    assert OccursAt(m, u + m + v, |u|);
  }

  lemma OccursInTail(p: string, s: string, n: int, i: int)
    requires 0 <= n <= |s|
    ensures OccursAt(p, s[n..], i) <==> 0 <= i && OccursAt(p, s, n + i)
  {
    if 0 <= i && n + i + |p| <= |s| {
      assert s[n..][i..i + |p|] == s[n + i..n + i + |p|];
    }
  }

  /** Splitting undoes joining when no part holds the first character of the separator. */
  lemma {:induction false} SplitJoin(parts: seq<string>, sep: string)
    requires sep != "" && parts != []
    requires forall part | part in parts :: sep[0] !in part
    ensures Split(Join(parts, sep), sep) == parts
    decreases |parts|, |parts[0]|
  {
    var p, s := parts[0], Join(parts, sep);
    assert p in parts;
    if p == "" && |parts| > 1 {
      assert s == sep + Join(parts[1..], sep);
      assert s[|sep|..] == Join(parts[1..], sep);
      SplitJoin(parts[1..], sep);
      assert parts == [""] + parts[1..];
    } else if p != "" {
      var shorter := [p[1..]] + parts[1..];
      assert shorter[1..] == parts[1..];
      assert s[1..] == Join(shorter, sep);
      assert s[0] == p[0] && p[0] in p && !(sep <= s);
      SplitJoin(shorter, sep);
      assert [p[0]] + p[1..] == p && [p] + parts[1..] == parts;
    }
  }

  lemma {:induction false} SplitLacks(s: string, c: char)
    ensures forall part | part in Split(s, [c]) :: c !in part
  {
    if s == "" {
    } else if [c] <= s {
      SplitLacks(s[1..], c);
    } else {
      SplitLacks(s[1..], c);
      assert s[0] != c;
    }
  }

  /** Text without an occurrence of `p` is left alone by replacement. */
  lemma {:induction false} ReplaceAbsent(s: string, p: string, r: string)
    requires p != "" && !Contains(s, p)
    ensures ReplaceAll(s, p, r) == s
  {
    if s != "" {
      assert p <= s ==> OccursAt(p, s, 0);
      AbsentInTail(s, p);
      ReplaceAbsent(s[1..], p, r);
    }
  }

  lemma AbsentInTail(s: string, p: string)
    requires s != "" && !Contains(s, p)
    ensures !Contains(s[1..], p)
  {
    if Contains(s[1..], p) {
      var i :| 0 <= i <= |s[1..]| && OccursAt(p, s[1..], i);
      assert OccursAt(p, s, i + 1);
    }
  }

  /** A stretch of text in which no occurrence of `p` starts is copied through. */
  lemma {:induction false} ReplaceAfter(u: string, s: string, p: string, r: string)
    requires p != ""
    requires forall i | 0 <= i < |u| :: !OccursAt(p, u + s, i)
    ensures ReplaceAll(u + s, p, r) == u + ReplaceAll(s, p, r)
  {
    if u == "" {
      assert u + s == s;
    } else {
      assert (u + s)[1..] == u[1..] + s;
      assert p <= u + s ==> OccursAt(p, u + s, 0);
      forall i | 0 <= i < |u[1..]|
        ensures !OccursAt(p, u[1..] + s, i)
      {
        OccursInTail(p, u + s, 1, i);
      }
      ReplaceAfter(u[1..], s, p, r);
    }
  }

  /** Deleting `p` shortens every text in which `p` occurs. */
  lemma {:induction false} DeleteShortens(s: string, p: string)
    requires p != ""
    ensures |ReplaceAll(s, p, "")| <= |s|
    ensures Contains(s, p) ==> |ReplaceAll(s, p, "")| <= |s| - |p|
  {
    if s == "" {
    } else if p <= s {
      DeleteShortens(s[|p|..], p);
    } else {
      DeleteShortens(s[1..], p);
      if Contains(s, p) && !Contains(s[1..], p) {
        var i :| 0 <= i <= |s| && OccursAt(p, s, i);
        assert i == 0 || OccursAt(p, s[1..], i - 1);
        assert i == 0;
      }
    }
  }

  /** An occurrence of `m` that no occurrence of `p` overlaps survives the deletion of `p`. */
  lemma {:induction false} DeleteKeeps(s: string, p: string, m: string, k: int)
    requires p != "" && m != "" && OccursAt(m, s, k)
    requires forall i | OccursAt(p, s, i) :: i + |p| <= k || k + |m| <= i
    ensures Contains(ReplaceAll(s, p, ""), m)
    decreases |s|
  {
    if k == 0 {
      assert s == m + s[|m|..];
      forall i | 0 <= i < |m|
        ensures !OccursAt(p, m + s[|m|..], i)
      {
      }
      ReplaceAfter(m, s[|m|..], p, "");
      OccursInContext("", m, ReplaceAll(s[|m|..], p, ""));
      assert "" + m + ReplaceAll(s[|m|..], p, "") == m + ReplaceAll(s[|m|..], p, "");
    } else {
      var n := if p <= s then |p| else 1;
      assert p <= s ==> OccursAt(p, s, 0);
      OccursInTail(m, s, n, k - n);
      forall i | OccursAt(p, s[n..], i)
        ensures i + |p| <= k - n || k - n + |m| <= i
      {
        OccursInTail(p, s, n, i);
      }
      DeleteKeeps(s[n..], p, m, k - n);
      var rest := ReplaceAll(s[n..], p, "");
      if !(p <= s) {
        var j :| 0 <= j <= |rest| && OccursAt(m, rest, j);
        assert ([s[0]] + rest)[j + 1..j + 1 + |m|] == rest[j..j + |m|];
        assert OccursAt(m, [s[0]] + rest, j + 1);
      } else {
        assert "" + rest == rest;
      }
    }
  }
}

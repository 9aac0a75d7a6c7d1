/** What the string operations of `Text` compute, said without their recursions. */
module TextLaws {
  import opened Text

  predicate AllSpace(s: string) {
    forall i | 0 <= i < |s| :: IsSpace(s[i])
  }

  /** No white space at either end. */
  predicate Trimmed(s: string) {
    s != "" ==> !IsSpace(s[0]) && !IsSpace(s[|s| - 1])
  }

  /** The characters Python counts as white space. */
  lemma SpaceExactly(c: char)
    ensures IsSpace(c) <==> c in [
      '\t', '\n', '\U{0B}', '\U{0C}', '\r', '\U{1C}', '\U{1D}', '\U{1E}', '\U{1F}', ' ', '\U{85}', '\U{A0}', '\U{1680}',
      '\U{2000}', '\U{2001}', '\U{2002}', '\U{2003}', '\U{2004}', '\U{2005}', '\U{2006}', '\U{2007}', '\U{2008}',
      '\U{2009}', '\U{200A}', '\U{2028}', '\U{2029}', '\U{202F}', '\U{205F}', '\U{3000}']
  {
  }

  /** Letters and digits are those of ASCII, by their codes. */
  lemma LettersExactly(c: char)
    ensures IsLetter(c) <==> 65 <= c as int <= 90 || 97 <= c as int <= 122
    ensures IsDigit(c) <==> 48 <= c as int <= 57
  {
  }

  /** `t` between white space. */
  predicate Pads(u: string, t: string, v: string, s: string) {
    s == u + t + v && AllSpace(u) && AllSpace(v)
  }

  lemma PadsLeft(c: char, u: string, t: string, v: string, s: string)
    requires Pads(u, t, v, s) && IsSpace(c)
    ensures Pads([c] + u, t, v, [c] + s)
  {
  }

  lemma PadsRight(c: char, u: string, t: string, v: string, s: string)
    requires Pads(u, t, v, s) && IsSpace(c)
    ensures Pads(u, t, v + [c], s + [c])
  {
  }

  /** `strip` takes away white space at the ends, all of it, and nothing else. */
  lemma {:induction false} StripExactly(s: string) returns (u: string, v: string)
    ensures s == u + Strip(s) + v && AllSpace(u) && AllSpace(v) && Trimmed(Strip(s))
    decreases |s|
  {
    if s != "" && IsSpace(s[0]) {
      assert Strip(s) == Strip(s[1..]) && s == [s[0]] + s[1..];
      hide Strip, IsSpace;
      var w;
      w, v := StripExactly(s[1..]);
      PadsLeft(s[0], w, Strip(s), v, s[1..]);
      u := [s[0]] + w;
    } else if s != "" && IsSpace(s[|s| - 1]) {
      var init, c := s[..|s| - 1], s[|s| - 1];
      assert Strip(s) == Strip(init) && s == init + [c];
      hide Strip, IsSpace;
      var w;
      u, w := StripExactly(init);
      PadsRight(c, u, Strip(s), w, init);
      v := w + [c];
    } else {
      u, v := "", "";
    }
  }

  /** So white space around a text that has none at its ends goes, whatever it is. */
  lemma {:induction false} StripPadded(u: string, s: string, v: string)
    requires AllSpace(u) && AllSpace(v) && Trimmed(s)
    ensures Strip(u + s + v) == s
    decreases |u| + |v|
  {
    var t := u + s + v;
    if u != "" {
      assert t[1..] == u[1..] + s + v;
      StripPadded(u[1..], s, v);
    } else if v != "" {
      var w := v[..|v| - 1];
      if s == "" {
        assert t[1..] == "" + s + v[1..];
        StripPadded("", s, v[1..]);
      } else {
        assert t[..|t| - 1] == u + s + w;
        StripPadded(u, s, w);
      }
    } else {
      assert t == s;
    }
  }

  /** Joining what was split gives the text back. */
  lemma {:induction false} JoinSplit(s: string, sep: string)
    requires sep != ""
    ensures Join(Split(s, sep), sep) == s
    decreases |s|
  {
    if s == "" {
    } else if sep <= s {
      var rest := Split(s[|sep|..], sep);
      JoinSplit(s[|sep|..], sep);
      assert s == sep + s[|sep|..];
      hide Split;
      JoinEmpty(rest, sep);
    } else {
      var rest := Split(s[1..], sep);
      JoinSplit(s[1..], sep);
      assert s == [s[0]] + s[1..];
      assert Split(s, sep) == [[s[0]] + rest[0]] + rest[1..];
      hide Split, Join;
      JoinLonger(s[0], rest, sep);
    }
  }

  lemma JoinEmpty(parts: seq<string>, sep: string)
    requires parts != []
    ensures Join([""] + parts, sep) == sep + Join(parts, sep)
  {
    assert ([""] + parts)[1..] == parts;
  }

  lemma JoinLonger(c: char, parts: seq<string>, sep: string)
    requires parts != []
    ensures Join([[c] + parts[0]] + parts[1..], sep) == [c] + Join(parts, sep)
  {
    var longer := [[c] + parts[0]] + parts[1..];
    assert longer[1..] == parts[1..];
  }

  /** A list is split at its separators: the parts are what has none, and they join to the list. */
  lemma SplitExactly(s: string, c: char, parts: seq<string>)
    ensures parts == Split(s, [c])
       <==> parts != [] && Join(parts, [c]) == s && forall part | part in parts :: c !in part
  {
    JoinSplit(s, [c]);
    SplitLacks(s, c);
    if parts != [] && Join(parts, [c]) == s && forall part | part in parts :: c !in part {
      SplitJoin(parts, [c]);
    }
  }

  /** Replacing is joining the parts in between with the replacement. */
  lemma {:induction false} ReplaceExactly(s: string, p: string, r: string)
    requires p != ""
    ensures ReplaceAll(s, p, r) == Join(Split(s, p), r)
    decreases |s|
  {
    if s == "" {
    } else if p <= s {
      var rest := Split(s[|p|..], p);
      ReplaceExactly(s[|p|..], p, r);
      assert ReplaceAll(s, p, r) == r + ReplaceAll(s[|p|..], p, r) && Split(s, p) == [""] + rest;
      hide Split, ReplaceAll;
      JoinEmpty(rest, r);
    } else {
      var rest := Split(s[1..], p);
      ReplaceExactly(s[1..], p, r);
      assert ReplaceAll(s, p, r) == [s[0]] + ReplaceAll(s[1..], p, r) && Split(s, p) == [[s[0]] + rest[0]] + rest[1..];
      hide Split, ReplaceAll;
      JoinLonger(s[0], rest, r);
    }
  }

  /** `lower` turns the ASCII capitals, in their order, into the small letters, and keeps the rest. */
  lemma LowerExactly(s: string, i: nat, k: nat)
    requires i < |s|
    ensures |Lower(s)| == |s|
    ensures k < 26 && s[i] == 'A' + k as char ==> Lower(s)[i] == 'a' + k as char
    ensures !('A' <= s[i] <= 'Z') ==> Lower(s)[i] == s[i]
  {
  }
}

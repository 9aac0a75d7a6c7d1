/** How the resource generator edits main.py (app/codegen.py): a router is added by two
    statements, each guarded by a substring test, and removed by replacing text. */
module Codegen {
  import opened Options
  import opened Text

  function ImportOf(name: string): string {
    var l := Lower(name);
    "from .routers." + l + " import router as " + l + "_router"
  }

  function InclusionOf(name: string): string {
    var l := Lower(name);
    "app.include_router(" + l + "_router, prefix=\"/" + l + "\", tags=[\"" + name + "\"])"
  }

  function WithImport(name: string, content: string): string {
    if Contains(content, ImportOf(name)) then content
    else ImportOf(name) + "\n" + content
  }

  function Included(name: string, content: string): string {
    var c := WithImport(name, content);
    if Contains(c, InclusionOf(name)) then c
    else c + "\n" + InclusionOf(name) + "\n"
  }

  function Removed(name: string, content: string): string {
    ReplaceAll(ReplaceAll(content, ImportOf(name) + "\n", ""), InclusionOf(name) + "\n", "")
  }

  /** main.py on disk; None when the file does not exist. */
  class MainFile {
    var text: Option<string>

    method IncludeRouter(name: string)
      modifies this
      ensures old(text).None? ==> text == old(text)
      ensures old(text).Some? ==> text == Some(Included(name, old(text).value))
    {
      var importStatement, includeStatement := ImportOf(name), InclusionOf(name);
      if text.None? { return; }
      var content := text.value;
      if !Contains(content, importStatement) {
        content := importStatement + "\n" + content;
      }
      if !Contains(content, includeStatement) {
        content := content + "\n" + includeStatement + "\n";
      }
      text := Some(content);
    }

    method RemoveRouter(name: string)
      modifies this
      ensures old(text).None? ==> text == old(text)
      ensures old(text).Some? ==> text == Some(Removed(name, old(text).value))
    {
      if text.None? { return; }
      var content := text.value;
      content := ReplaceAll(content, ImportOf(name) + "\n", "");
      content := ReplaceAll(content, InclusionOf(name) + "\n", "");
      text := Some(content);
    }
  }

  /** Both statements of the router `name` stand in the file. */
  predicate Routed(name: string, content: string) {
    Contains(content, ImportOf(name)) && Contains(content, InclusionOf(name))
  }

  lemma StillOccurs(u: string, s: string, v: string, m: string)
    requires Contains(s, m)
    ensures Contains(u + s + v, m)
  {
    var i :| 0 <= i <= |s| && OccursAt(m, s, i);
    assert (u + s + v)[|u| + i..|u| + i + |m|] == s[i..i + |m|];
    assert OccursAt(m, u + s + v, |u| + i);
  }

  lemma OccursBefore(s: string, v: string, m: string)
    requires Contains(s, m)
    ensures Contains(s + v, m)
  {
    StillOccurs("", s, v, m);
    assert "" + s + v == s + v;
  }

  lemma OccursAfter(u: string, s: string, m: string)
    requires Contains(s, m)
    ensures Contains(u + s, m)
  {
    StillOccurs(u, s, "", m);
    assert u + s + "" == u + s;
  }

  lemma OccursInItself(m: string)
    ensures Contains(m, m)
  {
    assert OccursAt(m, m, 0);
  }

  lemma IncludeKeeps(name: string, content: string, m: string)
    requires Contains(content, m)
    ensures Contains(Included(name, content), m)
  {
    hide ImportOf, InclusionOf, Contains;
    var c := WithImport(name, content);
    OccursAfter(ImportOf(name) + "\n", content, m);
    OccursBefore(c, "\n", m);
    OccursBefore(c + "\n", InclusionOf(name), m);
    OccursBefore(c + "\n" + InclusionOf(name), "\n", m);
  }

  /** Including a router puts both of its statements in the file, whatever was there. */
  lemma IncludeRoutes(name: string, content: string)
    ensures Routed(name, Included(name, content))
  {
    hide ImportOf, InclusionOf, Contains;
    var imp, inc, c := ImportOf(name), InclusionOf(name), WithImport(name, content);
    OccursInItself(imp);
    OccursBefore(imp, "\n", imp);
    OccursBefore(imp + "\n", content, imp);
    OccursBefore(c, "\n", imp);
    OccursBefore(c + "\n", inc, imp);
    OccursBefore(c + "\n" + inc, "\n", imp);
    OccursInItself(inc);
    OccursAfter(c + "\n", inc, inc);
    OccursBefore(c + "\n" + inc, "\n", inc);
  }

  lemma IncludeTwice(name: string, content: string)
    ensures Included(name, Included(name, content)) == Included(name, content)
  {
    IncludeRoutes(name, content);
  }

  // Removing after including

  predicate EndsLine(s: string) {
    s != "" ==> s[|s| - 1] == '\n'
  }

  lemma NoNewline(name: string)
    requires '\n' !in name
    ensures '\n' !in ImportOf(name) && '\n' !in InclusionOf(name)
  {
    var l := Lower(name);
    assert '\n' !in l;
  }

  /** A line is deleted from a text whose parts end in whole lines part by part. */
  lemma {:induction false} DeleteByLines(u: string, v: string, q: string)
    requires '\n' !in q && EndsLine(u)
    ensures ReplaceAll(u + v, q + "\n", "") == ReplaceAll(u, q + "\n", "") + ReplaceAll(v, q + "\n", "")
    decreases |u|
  {
    if u == "" {
      assert u + v == v;
    } else {
      SameFirstMatch(u, v, q);
      var n := if q + "\n" <= u then |q + "\n"| else 1;
      assert (u + v)[n..] == u[n..] + v;
      DeleteByLines(u[n..], v, q);
    }
  }

  lemma SameFirstMatch(u: string, v: string, q: string)
    requires '\n' !in q && u != "" && u[|u| - 1] == '\n'
    ensures q + "\n" <= u + v <==> q + "\n" <= u
  {
    var p := q + "\n";
    assert (u + v)[|u| - 1] == '\n';
    assert |q| >= |u| ==> q[|u| - 1] in q;
  }

  lemma {:induction false} DeleteLastLine(u: string, q: string)
    requires '\n' !in q
    ensures ReplaceAll(u + (q + "\n"), q + "\n", "") == ReplaceAll(u, q + "\n", "")
    decreases |u|
  {
    var p := q + "\n";
    if u == "" {
      assert u + p == p;
      DeleteWhole(p);
    } else {
      SameFirstMatchLast(u, q);
      var n := if p <= u then |p| else 1;
      assert (u + p)[n..] == u[n..] + p;
      DeleteLastLine(u[n..], q);
    }
  }

  lemma SameFirstMatchLast(u: string, q: string)
    requires '\n' !in q && u != ""
    ensures q + "\n" <= u + (q + "\n") <==> q + "\n" <= u
  {
    var p := q + "\n";
    assert |q| >= |u| ==> q[|q| - |u|] in q && (u + p)[|q|] == p[|q| - |u|];
  }

  lemma OccursChar(p: string, s: string, i: int, j: int)
    requires OccursAt(p, s, i) && 0 <= j < |p|
    ensures p[j] == s[i + j] && p[j] in p
  {
    assert s[i..i + |p|][j] == s[i + j];
  }

  /** A text without newlines occurs in `u + "\n" + v` only inside `u` or inside `v`. */
  lemma OccursWithinLine(u: string, v: string, m: string)
    requires '\n' !in m && m != ""
    ensures Contains(u + "\n" + v, m) ==> Contains(u, m) || Contains(v, m)
  {
    var s := u + "\n" + v;
    if Contains(s, m) {
      var i :| 0 <= i <= |s| && OccursAt(m, s, i);
      if i + |m| <= |u| {
        assert s[i..i + |m|] == u[i..i + |m|];
        assert OccursAt(m, u, i);
      } else if |u| < i {
        var j := i - |u| - 1;
        assert s[i..i + |m|] == v[j..j + |m|];
        assert OccursAt(m, v, j);
      } else {
        OccursChar(m, s, i, |u| - i);
      }
    }
  }

  lemma TooLong(s: string, p: string)
    requires |s| < |p|
    ensures !Contains(s, p)
  {
  }

  lemma DeleteWhole(p: string)
    requires p != ""
    ensures ReplaceAll(p, p, "") == ""
  {
    assert p[|p|..] == "";
  }

  lemma StatementEnds(name: string)
    ensures var imp := ImportOf(name); var inc := InclusionOf(name);
            imp != "" && inc != "" && imp[|imp| - 1] == 'r' && inc[|inc| - 1] == ')' && |imp| < |inc|
  {
  }

  /** The import line is not the end of the inclusion statement. */
  lemma ImportNotInInclusion(name: string)
    requires '\n' !in name
    ensures !Contains(InclusionOf(name) + "\n", ImportOf(name) + "\n")
  {
    hide ImportOf, InclusionOf;
    var imp, inc := ImportOf(name), InclusionOf(name);
    var s := inc + "\n";
    NoNewline(name);
    StatementEnds(name);
    if Contains(s, imp + "\n") {
      var i :| 0 <= i <= |s| && OccursAt(imp + "\n", s, i);
      assert forall k | 0 <= k < |inc| :: inc[k] in inc;
      OccursChar(imp + "\n", s, i, |imp|);
      OccursChar(imp + "\n", s, i, |imp| - 1);
    }
  }

  lemma DeleteFirstLine(q: string, s: string)
    ensures ReplaceAll(q + "\n" + s, q + "\n", "") == ReplaceAll(s, q + "\n", "")
  {
    var p := q + "\n";
    assert (p + s)[|p|..] == s;
    assert "" + ReplaceAll(s, p, "") == ReplaceAll(s, p, "");
  }

  /** What removal does to a file that ends with an appended inclusion statement. */
  lemma RemoveAppended(name: string, c: string)
    requires '\n' !in name
    ensures Removed(name, c + "\n" + InclusionOf(name) + "\n")
         == ReplaceAll(ReplaceAll(c + "\n", ImportOf(name) + "\n", ""), InclusionOf(name) + "\n", "")
    ensures |Removed(name, c + "\n" + InclusionOf(name) + "\n")|
         <= |ReplaceAll(c + "\n", ImportOf(name) + "\n", "")|
  {
    hide ImportOf, InclusionOf, ReplaceAll, OccursAt, Contains;
    var imp, inc := ImportOf(name), InclusionOf(name);
    var u := ReplaceAll(c + "\n", imp + "\n", "");
    NoNewline(name);
    assert c + "\n" + inc + "\n" == (c + "\n") + (inc + "\n");
    DeleteByLines(c + "\n", inc + "\n", imp);
    ImportNotInInclusion(name);
    ReplaceAbsent(inc + "\n", imp + "\n", "");
    DeleteLastLine(u, inc);
    DeleteShortens(u, inc + "\n");
  }

  /** The import of `name` and its inclusion go and leave one newline exactly when the
      file held neither the inclusion nor a line ending in the import. */
  lemma RemoveAfterInclude(name: string, c: string)
    requires '\n' !in name
    ensures Removed(name, Included(name, c)) == c + "\n"
       <==> !Contains(c, InclusionOf(name)) && !Contains(c + "\n", ImportOf(name) + "\n")
  {
    hide ImportOf, InclusionOf, ReplaceAll, OccursAt, Contains;
    var imp, inc := ImportOf(name), InclusionOf(name);
    StatementEnds(name);
    NoNewline(name);
    TooLong(imp, inc);
    var w := WithImport(name, c);
    assert Contains(w, inc) <==> Contains(c, inc) by {
      OccursWithinLine(imp, c, inc);
      if Contains(c, inc) { StillOccurs(imp + "\n", c, "", inc); }
      assert imp + "\n" + c + "" == imp + "\n" + c;
    }
    if Contains(c, inc) {
      RemovedIsShorter(name, c);
    } else {
      RemoveAppended(name, w);
      if Contains(c, imp) {
        DeleteShortens(c + "\n", imp + "\n");
      } else {
        DeleteFirstLine(imp, c + "\n");
        assert w + "\n" == imp + "\n" + (c + "\n");
        NotAtEnd(c, imp);
      }
      assert ReplaceAll(w + "\n", imp + "\n", "") == ReplaceAll(c + "\n", imp + "\n", "");
      if !Contains(c + "\n", imp + "\n") {
        ReplaceAbsent(c + "\n", imp + "\n", "");
        NotAtEnd(c, inc);
        ReplaceAbsent(c + "\n", inc + "\n", "");
      }
    }
  }

  lemma NotAtEnd(c: string, q: string)
    requires !Contains(c, q)
    ensures !Contains(c + "\n", q + "\n")
  {
    var s := c + "\n";
    if Contains(s, q + "\n") {
      var i :| 0 <= i <= |s| && OccursAt(q + "\n", s, i);
      assert c[i..i + |q|] == s[i..i + |q| + 1][..|q|] == q;
      assert OccursAt(q, c, i);
    }
  }

  /** With the inclusion already there, removing never gives back more than `c`. */
  lemma RemovedIsShorter(name: string, c: string)
    requires '\n' !in name
    ensures |Removed(name, WithImport(name, c))| <= |c|
  {
    hide ImportOf, InclusionOf, ReplaceAll, OccursAt, Contains;
    var imp, inc := ImportOf(name), InclusionOf(name);
    NoNewline(name);
    StatementEnds(name);
    var w := WithImport(name, c);
    DeleteShortens(w, imp + "\n");
    DeleteShortens(ReplaceAll(w, imp + "\n", ""), inc + "\n");
    if w != c {
      DeleteFirstLine(imp, c);
      DeleteShortens(c, imp + "\n");
    }
  }

  /** On a file that mentions neither statement, removal after inclusion leaves exactly one
      more newline than there was. */
  lemma RemoveAfterIncludeFromClean(name: string, c: string)
    requires '\n' !in name
    requires !Contains(c, ImportOf(name)) && !Contains(c, InclusionOf(name))
    ensures Removed(name, Included(name, c)) == c + "\n"
  {
    NotAtEnd(c, ImportOf(name));
    RemoveAfterInclude(name, c);
  }

  // Routers do not disturb each other

  predicate IsNameChar(c: char) {
    IsLetter(c) || IsDigit(c) || c == '_'
  }

  /** An ASCII identifier, as resource names are. */
  predicate IsName(name: string) {
    name != "" && forall c | c in name :: IsNameChar(c)
  }

  lemma LowerName(name: string)
    requires IsName(name)
    ensures forall j | 0 <= j < |name| :: IsNameChar(Lower(name)[j]) && IsNameChar(name[j])
  {
    forall j | 0 <= j < |name|
      ensures IsNameChar(Lower(name)[j]) && IsNameChar(name[j])
    {
      assert name[j] in name;
    }
  }

  predicate Lacks(s: string, c: char) {
    forall j | 0 <= j < |s| :: s[j] != c
  }

  lemma LacksConcat(u: string, v: string, c: char)
    requires Lacks(u, c) && Lacks(v, c)
    ensures Lacks(u + v, c)
  {
  }

  lemma NameLacks(name: string, c: char)
    requires IsName(name) && !IsNameChar(c)
    ensures Lacks(name, c) && Lacks(Lower(name), c)
  {
    LowerName(name);
  }

  function ImportTail(name: string): string {
    " import router as " + Lower(name) + "_router"
  }

  function InclusionTail(name: string): string {
    "_router, prefix=\"/" + Lower(name) + "\", tags=[\"" + name + "\"]"
  }

  lemma ImportTailShape(name: string)
    requires IsName(name)
    ensures var t := ImportTail(name);
            |t| == 25 + |name| && t[0] == ' ' && t[|t| - 2] == 'e' && t[|t| - 1] == 'r'
            && Lacks(t, '.') && Lacks(t, ')')
  {
    var l := Lower(name);
    forall c | c in ['.', ')']
      ensures Lacks(ImportTail(name), c)
    {
      NameLacks(name, c);
      LacksConcat(" import router as ", l, c);
      LacksConcat(" import router as " + l, "_router", c);
    }
    assert '.' in ['.', ')'] && ')' in ['.', ')'];
  }

  lemma InclusionTailShape(name: string)
    requires IsName(name)
    ensures var t := InclusionTail(name);
            |t| == 30 + 2 * |name| && Lacks(t, '.') && Lacks(t, ')') && Lacks(t, '(')
  {
    var l := Lower(name);
    forall c | c in ['.', ')', '(']
      ensures Lacks(InclusionTail(name), c)
    {
      NameLacks(name, c);
      LacksConcat("_router, prefix=\"/", l, c);
      LacksConcat("_router, prefix=\"/" + l, "\", tags=[\"", c);
      LacksConcat("_router, prefix=\"/" + l + "\", tags=[\"", name, c);
      LacksConcat("_router, prefix=\"/" + l + "\", tags=[\"" + name, "\"]", c);
    }
    assert '.' in ['.', ')', '('] && ')' in ['.', ')', '('] && '(' in ['.', ')', '('];
  }

  lemma Associates(u: string, v: string, w: string)
    ensures u + v + w == u + (v + w)
  {
  }

  lemma Regroup(u: string, l: string, v: string, w: string)
    ensures u + l + v + l + w == u + l + (v + l + w)
  {
    Associates(u + l, v, l);
    Associates(u + l, v + l, w);
  }

  lemma RegroupLong(u: string, l: string, v: string, w: string, n: string, x: string, y: string)
    ensures u + l + v + l + w + n + (x + y) == u + l + (v + l + w + n + x) + y
  {
    var s := u + l;
    Associates(s, v, l);
    Associates(s, v + l, w);
    Associates(s, v + l + w, n);
    Associates(s, v + l + w + n, x);
    Associates(s + (v + l + w + n), x, y);
  }

  lemma ImportShape(name: string)
    requires IsName(name)
    ensures ImportOf(name) == "from .routers." + Lower(name) + ImportTail(name)
  {
    Regroup("from .routers.", Lower(name), " import router as ", "_router");
  }

  lemma InclusionShape(name: string)
    requires IsName(name)
    ensures InclusionOf(name) == "app.include_router(" + Lower(name) + InclusionTail(name) + ")"
  {
    assert "\"])" == "\"]" + ")";
    RegroupLong("app.include_router(", Lower(name), "_router, prefix=\"/", "\", tags=[\"", name, "\"]", ")");
  }

  predicate Apart(i: int, p: string, k: int, m: string) {
    i + |p| <= k || k + |m| <= i
  }

  /** `q` and `m` agree wherever they overlap when `m` starts `d` places after `q`. */
  predicate Agree(q: string, m: string, d: int) {
    forall y | 0 <= y < |m| && 0 <= y + d < |q| :: m[y] == q[y + d]
  }

  /** Text without a newline that overlaps the line `q` ends inside `q`. */
  lemma Overlap(q: string, m: string, s: string, i: int, k: int)
    requires '\n' !in m
    requires OccursAt(q + "\n", s, i) && OccursAt(m, s, k)
    requires !Apart(i, q + "\n", k, m)
    ensures 0 < k - i + |m| <= |q| && Agree(q, m, k - i)
  {
    var p := q + "\n";
    if k + |m| > i + |q| {
      OccursChar(p, s, i, |q|);
      OccursChar(m, s, k, i + |q| - k);
    }
    forall y | 0 <= y < |m| && 0 <= y + (k - i) < |q|
      ensures m[y] == q[y + (k - i)]
    {
      OccursChar(p, s, i, y + (k - i));
      OccursChar(m, s, k, y);
    }
  }

  lemma ImportDots(name: string, j: int)
    requires IsName(name) && 0 <= j < |ImportOf(name)|
    ensures ImportOf(name)[j] == '.' ==> j == 5 || j == 13
    ensures ImportOf(name)[j] != ')'
  {
    hide ImportOf, ImportTail;
    ImportShape(name);
    ImportTailShape(name);
    NameLacks(name, '.');
    NameLacks(name, ')');
    var head := "from .routers.";
    assert j < 14 ==> ImportOf(name)[j] == head[j];
  }

  lemma ImportLetters(name: string)
    requires IsName(name)
    ensures var imp := ImportOf(name);
            |imp| == 39 + 2 * |name|
            && imp[0] == 'f' && imp[1] == 'r' && imp[2] == 'o' && imp[3] == 'm' && imp[4] == ' '
            && imp[5] == '.' && imp[8] == 'u' && imp[10] == 'e' && imp[13] == '.'
            && imp[14 + |name|] == ' ' && imp[|imp| - 2] == 'e' && imp[|imp| - 1] == 'r'
  {
    hide ImportOf, ImportTail;
    ImportShape(name);
    ImportTailShape(name);
  }

  lemma ImportWord(name: string, j: int)
    requires IsName(name) && 0 <= j < |name|
    ensures 14 + j < |ImportOf(name)| && ImportOf(name)[14 + j] == Lower(name)[j]
  {
    hide ImportOf, ImportTail;
    ImportShape(name);
  }

  /** Two imports cannot overlap in a way that ends inside the first unless they are equal. */
  lemma ImportsDisagree(a: string, b: string, d: int)
    requires IsName(a) && IsName(b)
    requires 0 < d + |ImportOf(b)| <= |ImportOf(a)| && Agree(ImportOf(a), ImportOf(b), d)
    ensures Lower(a) == Lower(b)
  {
    hide ImportOf, Lower, IsName;
    var q, m := ImportOf(a), ImportOf(b);
    ImportLetters(a);
    ImportLetters(b);
    if d > 0 {
      ImportDots(a, 5 + d);
      ImportDots(a, 13 + d);
    } else if d == 0 {
      NameLacks(a, ' ');
      if |b| < |a| { ImportWord(a, |b|); }
      forall j | 0 <= j < |b|
        ensures Lower(a)[j] == Lower(b)[j]
      {
        ImportWord(a, j);
        ImportWord(b, j);
      }
    } else if |m| > 5 - d {
      ImportDots(b, 5 - d);
    }
  }

  lemma InclusionMarks(name: string, j: int)
    requires IsName(name) && 0 <= j < |InclusionOf(name)|
    ensures InclusionOf(name)[j] == '.' <==> j == 3
    ensures InclusionOf(name)[j] == '(' <==> j == 18
    ensures InclusionOf(name)[j] == ')' <==> j == |InclusionOf(name)| - 1
  {
    hide InclusionOf, InclusionTail;
    InclusionShape(name);
    InclusionTailShape(name);
    NameLacks(name, '.');
    NameLacks(name, '(');
    NameLacks(name, ')');
    var head := "app.include_router(";
    assert j < 19 ==> InclusionOf(name)[j] == head[j];
  }

  lemma InclusionLetters(name: string)
    requires IsName(name)
    ensures var inc := InclusionOf(name);
            |inc| == 50 + 3 * |name| && inc[0] == 'a' && inc[1] == 'p' && inc[2] == 'p'
  {
    hide InclusionOf, InclusionTail;
    InclusionShape(name);
    InclusionTailShape(name);
  }

  lemma InclusionWord(name: string, j: int)
    requires IsName(name) && 0 <= j < |name|
    ensures 19 + j < |InclusionOf(name)| && InclusionOf(name)[19 + j] == Lower(name)[j]
  {
    hide InclusionOf, InclusionTail;
    InclusionShape(name);
  }

  /** An import cannot overlap an inclusion in a way that ends inside the inclusion. */
  lemma ImportOffInclusion(a: string, b: string, d: int)
    requires IsName(a) && IsName(b)
    requires 0 < d + |ImportOf(b)| <= |InclusionOf(a)|
    ensures !Agree(InclusionOf(a), ImportOf(b), d)
  {
    hide ImportOf, InclusionOf;
    var q, m := InclusionOf(a), ImportOf(b);
    InclusionLetters(a);
    InclusionMarks(a, 3);
    ImportLetters(b);
    if Agree(q, m, d) {
      if d >= 0 {
        InclusionMarks(a, 5 + d);
        InclusionMarks(a, 13 + d);
      } else if |m| > 3 - d {
        ImportDots(b, 3 - d);
      }
    }
  }

  lemma InclusionsAlign(a: string, b: string, d: int)
    requires IsName(a) && IsName(b)
    requires 0 < d + |InclusionOf(b)| <= |InclusionOf(a)| && Agree(InclusionOf(a), InclusionOf(b), d)
    ensures d == 0 && |a| == |b|
  {
    hide InclusionOf;
    var q, m := InclusionOf(a), InclusionOf(b);
    InclusionLetters(a);
    InclusionLetters(b);
    InclusionMarks(b, |m| - 1);
    InclusionMarks(a, d + |m| - 1);
    if d >= 0 {
      InclusionMarks(b, 18);
      InclusionMarks(a, 18 + d);
    } else {
      InclusionMarks(a, 18);
      InclusionMarks(b, 18 - d);
    }
  }

  lemma InclusionsDisagree(a: string, b: string, d: int)
    requires IsName(a) && IsName(b)
    requires 0 < d + |InclusionOf(b)| <= |InclusionOf(a)| && Agree(InclusionOf(a), InclusionOf(b), d)
    ensures Lower(a) == Lower(b)
  {
    hide InclusionOf, Lower, IsName;
    InclusionsAlign(a, b, d);
    var q, m, l, r := InclusionOf(a), InclusionOf(b), Lower(a), Lower(b);
    forall j | 0 <= j < |a|
      ensures l[j] == r[j]
    {
      InclusionWord(a, j);
      InclusionWord(b, j);
      assert m[19 + j] == q[19 + j];
    }
    assert l == r;
  }

  /** Deleting a line of router `a` keeps each statement of a router `b` named differently. */
  lemma DeleteKeepsStatement(a: string, b: string, q: string, m: string, s: string)
    requires IsName(a) && IsName(b) && Lower(a) != Lower(b)
    requires q in [ImportOf(a), InclusionOf(a)] && m in [ImportOf(b), InclusionOf(b)]
    requires Contains(s, m)
    ensures Contains(ReplaceAll(s, q + "\n", ""), m)
  {
    hide ImportOf, InclusionOf, ReplaceAll;
    NameLacks(b, '\n');
    NoNewline(b);
    StatementEnds(b);
    var k :| 0 <= k <= |s| && OccursAt(m, s, k);
    forall i | OccursAt(q + "\n", s, i)
      ensures Apart(i, q + "\n", k, m)
    {
      if !Apart(i, q + "\n", k, m) {
        Overlap(q, m, s, i, k);
        Disagree(a, b, q, m, k - i);
      }
    }
    DeleteKeeps(s, q + "\n", m, k);
  }

  lemma Disagree(a: string, b: string, q: string, m: string, d: int)
    requires IsName(a) && IsName(b) && Lower(a) != Lower(b)
    requires q in [ImportOf(a), InclusionOf(a)] && m in [ImportOf(b), InclusionOf(b)]
    requires 0 < d + |m| <= |q|
    ensures !Agree(q, m, d)
  {
    hide ImportOf, InclusionOf;
    if Agree(q, m, d) {
      if q == ImportOf(a) && m == ImportOf(b) {
        ImportsDisagree(a, b, d);
      } else if q == InclusionOf(a) && m == ImportOf(b) {
        ImportOffInclusion(a, b, d);
      } else if q == InclusionOf(a) {
        InclusionsDisagree(a, b, d);
      } else {
        StatementEnds(b);
        InclusionMarks(b, |m| - 1);
        ImportDots(a, d + |m| - 1);
      }
    }
  }

  /** Removing one router leaves every router whose name differs in lower case. */
  lemma RemoveLeavesOthers(a: string, b: string, content: string)
    requires IsName(a) && IsName(b) && Lower(a) != Lower(b)
    requires Routed(b, content)
    ensures Routed(b, Removed(a, content))
  {
    hide ImportOf, InclusionOf, ReplaceAll, Contains;
    var c := ReplaceAll(content, ImportOf(a) + "\n", "");
    forall m | m in [ImportOf(b), InclusionOf(b)]
      ensures Contains(ReplaceAll(c, InclusionOf(a) + "\n", ""), m)
    {
      DeleteKeepsStatement(a, b, ImportOf(a), m, content);
      DeleteKeepsStatement(a, b, InclusionOf(a), m, c);
    }
    assert ImportOf(b) in [ImportOf(b), InclusionOf(b)] && InclusionOf(b) in [ImportOf(b), InclusionOf(b)];
  }

  // When removal takes the statements out

  predicate OneLine(s: string) {
    '\n' !in s
  }

  lemma NoLineIn(l: string, q: string)
    requires OneLine(l)
    ensures !Contains(l, q + "\n")
  {
    if Contains(l, q + "\n") {
      var i :| 0 <= i <= |l| && OccursAt(q + "\n", l, i);
      OccursChar(q + "\n", l, i, |q|);
    }
  }

  /** No beginning of `m`, nor `m` itself, ends `x`. */
  predicate Guarded(x: string, m: string) {
    forall n | 0 < n <= |m| && n <= |x| :: x[|x| - n..] != m[..n]
  }

  /** Before each line ending in `q` there is no beginning of `m`, nor `m` itself. */
  predicate Fenced(c: string, q: string, m: string) {
    forall i | 0 <= i <= |c| && OccursAt(q + "\n", c, i) :: Guarded(c[..i], m)
  }

  /** In particular where such lines hold nothing else. */
  lemma OwnLinesAreFenced(c: string, q: string, m: string)
    requires OneLine(m)
    requires forall i | 0 < i <= |c| && OccursAt(q + "\n", c, i) :: c[i - 1] == '\n'
    ensures Fenced(c, q, m)
  {
    forall i | 0 <= i <= |c| && OccursAt(q + "\n", c, i)
      ensures Guarded(c[..i], m)
    {
      forall n | 0 < n <= |m| && n <= i
        ensures c[..i][i - n..] != m[..n]
      {
        assert c[..i][i - n..][n - 1] == '\n' && m[..n][n - 1] in m;
      }
    }
  }

  predicate LooseAt(c: string, m: string, k: int) {
    OccursAt(m, c, k) && !OccursAt(m + "\n", c, k)
  }

  /** `m` occurs with no newline behind it. */
  predicate LooseIn(c: string, m: string) {
    exists k | 0 <= k <= |c| :: LooseAt(c, m, k)
  }

  lemma FirstOccurrence(c: string, p: string) returns (i: int)
    requires Contains(c, p)
    ensures 0 <= i <= |c| && OccursAt(p, c, i) && forall k | 0 <= k < i :: !OccursAt(p, c, k)
  {
    i := 0;
    while !OccursAt(p, c, i)
      invariant 0 <= i <= |c| && forall k | 0 <= k < i :: !OccursAt(p, c, k)
      decreases |c| - i
    {
      assert i < |c| by {
        var k :| 0 <= k <= |c| && OccursAt(p, c, k);
        assert k > i;
      }
      i := i + 1;
    }
  }

  /** Deleting `p` takes out its first occurrence and goes on behind it. */
  lemma DeleteFirst(c: string, p: string, i: int)
    requires p != "" && OccursAt(p, c, i) && forall k | 0 <= k < i :: !OccursAt(p, c, k)
    ensures c == c[..i] + (p + c[i + |p|..])
    ensures ReplaceAll(c, p, "") == c[..i] + ReplaceAll(c[i + |p|..], p, "")
  {
    var x, rest := c[..i], c[i + |p|..];
    assert c == x + (p + rest);
    ReplaceAfter(x, p + rest, p, "");
    assert (p + rest)[|p|..] == rest;
    assert "" + ReplaceAll(rest, p, "") == ReplaceAll(rest, p, "");
  }

  /** What lies across the end of `x` begins with an end of `x`. */
  lemma EndsInBeginning(x: string, z: string, m: string, t: string, k: int)
    requires (t == m || t == m + "\n") && OccursAt(t, x + z, k) && k < |x| && |x| < k + |t|
    ensures !Guarded(x, m)
  {
    var n := |x| - k;
    assert n <= |m| && t[..n] == m[..n];
    assert x[|x| - n..] == (x + z)[k..k + |t|][..n];
  }

  lemma EndsWhole(x: string, m: string)
    requires m != "" && OccursAt(m, x, |x| - |m|)
    ensures !Guarded(x, m)
  {
    assert x[|x| - |m|..] == x[|x| - |m|..|x|] && m[..|m|] == m;
  }

  /** `t`, which is `m` perhaps with a newline, does not lie across the end of a guarded text. */
  lemma NotAcross(x: string, z: string, m: string, t: string, k: int)
    requires Guarded(x, m) && (t == m || t == m + "\n") && OccursAt(t, x + z, k) && k < |x|
    ensures k + |t| <= |x|
  {
    if k + |t| > |x| { EndsInBeginning(x, z, m, t, k); }
  }

  lemma OccursIn(x: string, z: string, t: string, k: int)
    ensures 0 <= k && k + |t| <= |x| ==> (OccursAt(t, x + z, k) <==> OccursAt(t, x, k))
    ensures k >= |x| ==> (OccursAt(t, x + z, k) <==> OccursAt(t, z, k - |x|))
  {
    if 0 <= k && k + |t| <= |x| {
      assert (x + z)[k..k + |t|] == x[k..k + |t|];
    }
    if |x| <= k && k + |t| <= |x + z| {
      assert (x + z)[k..k + |t|] == z[k - |x|..k - |x| + |t|];
    }
  }

  /** What is loose behind a guarded text does not depend on it, and the other way round. */
  lemma LooseSplit(x: string, z: string, z': string, m: string)
    requires Guarded(x, m) && m != "" && (LooseIn(z, m) ==> LooseIn(z', m))
    ensures LooseIn(x + z, m) ==> LooseIn(x + z', m)
  {
    if LooseIn(x + z, m) {
      var k :| 0 <= k <= |x + z| && LooseAt(x + z, m, k);
      if k < |x| {
        NotAcross(x, z, m, m, k);
        OccursIn(x, z, m, k);
        if k + |m| == |x| { EndsWhole(x, m); }
        OccursIn(x, z', m, k);
        OccursIn(x, z, m + "\n", k);
        OccursIn(x, z', m + "\n", k);
        assert LooseAt(x + z', m, k);
      } else {
        OccursIn(x, z, m, k);
        OccursIn(x, z, m + "\n", k);
        assert LooseAt(z, m, k - |x|);
        var j :| 0 <= j <= |z'| && LooseAt(z', m, j);
        OccursIn(x, z', m, |x| + j);
        OccursIn(x, z', m + "\n", |x| + j);
        assert LooseAt(x + z', m, |x| + j);
      }
    }
  }

  /** Nothing is loose in a line that is `m` or does not contain it. */
  lemma LooseAfterLine(q: string, rest: string, m: string)
    requires OneLine(q) && OneLine(m) && m != "" && (m == q || !Contains(q, m))
    ensures LooseIn((q + "\n") + rest, m) <==> LooseIn(rest, m)
  {
    var p := q + "\n";
    if LooseIn(p + rest, m) {
      var k :| 0 <= k <= |p + rest| && LooseAt(p + rest, m, k);
      OccursIn(p, rest, m, k);
      OccursIn(p, rest, m + "\n", k);
      assert OccursAt(p, p + rest, 0);
      if k < |p| { WithinLine(q, rest, m, k); }
      assert LooseAt(rest, m, k - |p|);
    }
    if LooseIn(rest, m) {
      var j :| 0 <= j <= |rest| && LooseAt(rest, m, j);
      OccursIn(p, rest, m, |p| + j);
      OccursIn(p, rest, m + "\n", |p| + j);
      assert LooseAt(p + rest, m, |p| + j);
    }
  }

  /** Text of one line that starts in a line lies in that line. */
  lemma WithinLine(q: string, rest: string, m: string, k: int)
    requires OneLine(m) && m != "" && OccursAt(m, (q + "\n") + rest, k) && k < |q| + 1
    ensures k + |m| <= |q| && OccursAt(m, q, k) && Contains(q, m)
  {
    var s := (q + "\n") + rest;
    assert s[|q|] == '\n';
    if k + |m| > |q| {
      OccursChar(m, s, k, |q| - k);
    } else {
      assert s[k..k + |m|] == q[k..k + |m|];
      assert OccursAt(m, q, k);
    }
  }

  lemma FencedRest(c: string, n: int, q: string, m: string)
    requires Fenced(c, q, m) && 0 <= n <= |c|
    ensures Fenced(c[n..], q, m)
  {
    var d := c[n..];
    forall i | 0 <= i <= |d| && OccursAt(q + "\n", d, i)
      ensures Guarded(d[..i], m)
    {
      OccursInTail(q + "\n", c, n, i);
      assert Guarded(c[..n + i], m);
      forall k | 0 < k <= |m| && k <= i
        ensures d[..i][i - k..] != m[..k]
      {
        assert d[..i][i - k..] == c[..n + i][n + i - k..];
      }
    }
  }

  /** Deleting the lines that end in `q` takes away and brings no loose occurrence of `m`. */
  lemma {:induction false} LooseKept(c: string, q: string, m: string)
    requires OneLine(q) && OneLine(m) && m != "" && (m == q || !Contains(q, m)) && Fenced(c, q, m)
    ensures LooseIn(ReplaceAll(c, q + "\n", ""), m) <==> LooseIn(c, m)
    decreases |c|
  {
    hide ReplaceAll, LooseIn, Guarded;
    var p := q + "\n";
    if Contains(c, p) {
      var i := FirstOccurrence(c, p);
      DeleteFirst(c, p, i);
      var x, rest := c[..i], c[i + |p|..];
      FencedRest(c, i + |p|, q, m);
      LooseKept(rest, q, m);
      LooseAfterLine(q, rest, m);
      assert Guarded(x, m);
      LooseSplit(x, p + rest, ReplaceAll(rest, p, ""), m);
      LooseSplit(x, ReplaceAll(rest, p, ""), p + rest, m);
    } else {
      ReplaceAbsent(c, p, "");
    }
  }

  /** It leaves no line that ends in `q`, and makes no new one that ends in `m`. */
  lemma {:induction false} NoneNew(c: string, q: string, m: string)
    requires Fenced(c, q, m)
    ensures Contains(ReplaceAll(c, q + "\n", ""), m + "\n") ==> Contains(c, m + "\n") && m != q
    decreases |c|
  {
    hide ReplaceAll, Guarded;
    var p, t := q + "\n", m + "\n";
    if Contains(c, p) {
      var i := FirstOccurrence(c, p);
      DeleteFirst(c, p, i);
      var x, rest := c[..i], c[i + |p|..];
      var y := ReplaceAll(rest, p, "");
      FencedRest(c, i + |p|, q, m);
      NoneNew(rest, q, m);
      if Contains(x + y, t) {
        var k :| 0 <= k <= |x + y| && OccursAt(t, x + y, k);
        OccursIn(x, y, t, k);
        if k < |x| {
          NotAcross(x, y, m, t, k);
          OccursIn(x, p + rest, t, k);
          assert OccursAt(t, c, k);
        } else {
          assert OccursAt(t, y, k - |x|) && Contains(y, t);
          OccursAfter(p, rest, t);
          OccursAfter(x, p + rest, t);
        }
      }
    } else {
      ReplaceAbsent(c, p, "");
    }
  }

  lemma GuardedAcross(x: string, u: string, m: string)
    requires Guarded(x, m) && Guarded(u, m)
    ensures Guarded(x + u, m)
  {
    forall n | 0 < n <= |m| && n <= |x + u|
      ensures (x + u)[|x + u| - n..] != m[..n]
    {
      if n <= |u| {
        assert (x + u)[|x + u| - n..] == u[|u| - n..];
      } else {
        var k := n - |u|;
        assert (x + u)[|x + u| - n..][..k] == x[|x| - k..];
        assert m[..n][..k] == m[..k];
      }
    }
  }

  lemma Unguarded(m: string)
    ensures Guarded("", m)
  {
  }

  lemma FencedStep(x: string, z: string, y: string, r: string, m: string, k: int)
    requires Guarded(x, r) && Guarded(x, m) && Fenced(x + z, r, m) && Fenced(y, r, m)
    requires 0 <= k <= |x + y| && OccursAt(r + "\n", x + y, k)
    ensures Guarded((x + y)[..k], m)
  {
    hide Guarded, OccursAt;
    var t := r + "\n";
    OccursIn(x, y, t, k);
    if k < |x| {
      NotAcross(x, y, r, t, k);
      OccursIn(x, z, t, k);
      assert (x + y)[..k] == (x + z)[..k];
    } else {
      GuardedAcross(x, y[..k - |x|], m);
      assert (x + y)[..k] == x + y[..k - |x|];
    }
  }

  lemma FencedJoin(x: string, z: string, y: string, r: string, m: string)
    requires Guarded(x, r) && Guarded(x, m) && Fenced(x + z, r, m) && Fenced(y, r, m)
    ensures Fenced(x + y, r, m)
  {
    hide Guarded;
    forall k | 0 <= k <= |x + y| && OccursAt(r + "\n", x + y, k)
      ensures Guarded((x + y)[..k], m)
    {
      FencedStep(x, z, y, r, m, k);
    }
  }

  /** The lines that end in another statement stay fenced. */
  lemma {:induction false} FencedKept(c: string, q: string, r: string, m: string)
    requires Fenced(c, q, r) && Fenced(c, q, m) && Fenced(c, r, m)
    ensures Fenced(ReplaceAll(c, q + "\n", ""), r, m)
    decreases |c|
  {
    hide ReplaceAll, Guarded;
    var p := q + "\n";
    if Contains(c, p) {
      var i := FirstOccurrence(c, p);
      DeleteFirst(c, p, i);
      var x, rest := c[..i], c[i + |p|..];
      assert Guarded(x, r) && Guarded(x, m);
      hide Fenced, Contains, OccursAt;
      FencedRest(c, i + |p|, q, r);
      FencedRest(c, i + |p|, q, m);
      FencedRest(c, i + |p|, r, m);
      FencedKept(rest, q, r, m);
      FencedJoin(x, p + rest, ReplaceAll(rest, p, ""), r, m);
    } else {
      ReplaceAbsent(c, p, "");
    }
  }

  /** The text mentions a statement of the router. */
  predicate Mentions(name: string, s: string) {
    Contains(s, ImportOf(name)) || Contains(s, InclusionOf(name))
  }

  /** Directly before a line that ends in a statement of the router there is neither a statement of it
      nor a beginning of one. */
  predicate FencedFor(name: string, content: string) {
    forall q, m | q in Statements(name) && m in Statements(name) :: Fenced(content, q, m)
  }

  function Statements(name: string): seq<string> {
    [ImportOf(name), InclusionOf(name)]
  }

  lemma NoneWithin(name: string)
    requires IsName(name)
    ensures !Contains(ImportOf(name), InclusionOf(name)) && !Contains(InclusionOf(name), ImportOf(name))
  {
    hide ImportOf, InclusionOf;
    var imp, inc := ImportOf(name), InclusionOf(name);
    StatementEnds(name);
    TooLong(imp, inc);
    if Contains(inc, imp) {
      var k :| 0 <= k <= |inc| && OccursAt(imp, inc, k);
      assert inc[k..k + |imp|] == imp;
      ImportOffInclusion(name, name, k);
      assert false;
    }
  }

  lemma LooseOrLine(c: string, m: string)
    ensures Contains(c, m) ==> LooseIn(c, m) || Contains(c, m + "\n")
    ensures LooseIn(c, m) ==> Contains(c, m)
  {
    if Contains(c, m) {
      var k :| 0 <= k <= |c| && OccursAt(m, c, k);
      assert LooseAt(c, m, k) || OccursAt(m + "\n", c, k);
    }
  }

  /** In a fenced file, removal takes a router's statements out if and only if each of them is followed by
      a newline. */
  lemma RemovesExactly(name: string, content: string)
    requires IsName(name) && FencedFor(name, content)
    ensures !Mentions(name, Removed(name, content))
       <==> !LooseIn(content, ImportOf(name)) && !LooseIn(content, InclusionOf(name))
  {
    var imp, inc := ImportOf(name), InclusionOf(name);
    hide ImportOf, InclusionOf, ReplaceAll, Fenced, LooseIn, Contains;
    var first := ReplaceAll(content, imp + "\n", "");
    var last := ReplaceAll(first, inc + "\n", "");
    assert OneLine(imp) && OneLine(inc) by { NameLacks(name, '\n'); NoNewline(name); }
    StatementEnds(name);
    NoneWithin(name);
    assert imp in Statements(name) && inc in Statements(name);
    FencedKept(content, imp, inc, imp);
    FencedKept(content, imp, inc, inc);
    NoneNew(content, imp, imp);
    NoneNew(first, inc, imp);
    NoneNew(first, inc, inc);
    LooseKept(content, imp, imp);
    LooseKept(content, imp, inc);
    LooseKept(first, inc, imp);
    LooseKept(first, inc, inc);
    LooseOrLine(last, imp);
    LooseOrLine(last, inc);
  }

  /** A file that is not fenced: taking the import out joins the line before it to the line after it,
      which may put the same import together again. */
  lemma JoinedImportStays(name: string, k: nat)
    requires IsName(name) && k <= |ImportOf(name)|
    ensures var imp := ImportOf(name);
            Removed(name, imp[..k] + (imp + "\n") + imp[k..]) == imp
  {
    hide ImportOf, InclusionOf, ReplaceAll;
    var imp, inc := ImportOf(name), InclusionOf(name);
    assert OneLine(imp) && OneLine(inc) by { NameLacks(name, '\n'); NoNewline(name); }
    var u, v := imp[..k], imp[k..];
    assert OneLine(u) && OneLine(v);
    DeleteLastLine(u, imp);
    assert EndsLine(u + (imp + "\n"));
    DeleteByLines(u + (imp + "\n"), v, imp);
    NoLineIn(u, imp);
    NoLineIn(v, imp);
    ReplaceAbsent(u, imp + "\n", "");
    ReplaceAbsent(v, imp + "\n", "");
    assert u + v == imp;
    NoLineIn(imp, inc);
    ReplaceAbsent(imp, inc + "\n", "");
  }

  // Whole runs of the generator

  datatype Edit = Include(name: string) | Remove(name: string)

  function Edited(e: Edit, content: string): string {
    match e
    case Include(name) => Included(name, content)
    case Remove(name) => Removed(name, content)
  }

  function After(edits: seq<Edit>, n: nat, content: string): string
    requires n <= |edits|
  {
    if n == 0 then content else Edited(edits[n - 1], After(edits, n - 1, content))
  }

  /** Once included, a router stays routed until a router of the same lower-case name goes. */
  lemma {:induction false} StaysRouted(edits: seq<Edit>, k: nat, n: nat, content: string)
    requires k < n <= |edits| && edits[k].Include? && IsName(edits[k].name)
    requires forall e | e in edits :: IsName(e.name)
    requires forall j | k < j < n && edits[j].Remove? :: Lower(edits[j].name) != Lower(edits[k].name)
    ensures Routed(edits[k].name, After(edits, n, content))
  {
    hide ImportOf, InclusionOf, Included, Removed, Lower;
    var b, e, c := edits[k].name, edits[n - 1], After(edits, n - 1, content);
    if n == k + 1 {
      IncludeRoutes(b, c);
    } else {
      StaysRouted(edits, k, n - 1, content);
      match e {
        case Include(name) =>
          IncludeKeeps(name, c, ImportOf(b));
          IncludeKeeps(name, c, InclusionOf(b));
        case Remove(name) =>
          assert e in edits;
          RemoveLeavesOthers(name, b, c);
      }
    }
  }
}

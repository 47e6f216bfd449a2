/** SQL LIKE over the text of a JSON list of strings (memos/lib/filter/render.go, the tag tests):
    what the patterns really match. */
module Like {
  import opened Text

  /** LIKE (section 8.5 of ISO/IEC 9075:1992): % stands for any text, _ for one character; where the
      dialect has a default escape, a backslash makes the next character stand for itself. */
  predicate Like(p: string, t: string, escape: bool)
    decreases |p| + |t|
  {
    if p == "" then t == ""
    else if p[0] == '%' then Like(p[1..], t, escape) || (t != "" && Like(p, t[1..], escape))
    else if escape && p[0] == '\\' && |p| > 1 then
      t != "" && t[0] == p[1] && Like(p[2..], t[1..], escape)
    else t != "" && (p[0] == '_' || p[0] == t[0]) && Like(p[1..], t[1..], escape)
  }

  /** LIKE does not take the text as it stands. */
  predicate Wild(s: string, escape: bool) {
    '%' in s || '_' in s || (escape && '\\' in s)
  }

  /** `q` is a substring of `t`. */
  predicate Occurs(q: string, t: string) {
    q <= t || (t != "" && Occurs(q, t[1..]))
  }

  lemma {:induction false} LikePrefix(q: string, t: string, escape: bool)
    requires !Wild(q, escape)
    ensures Like(q + "%", t, escape) <==> q <= t
  {
    if q == "" {
      assert q + "%" == "%";
      LikeAnything(t, escape);
    } else {
      assert (q + "%")[1..] == q[1..] + "%";
      assert q[0] in q;
      if t != "" && t[0] == q[0] {
        LikePrefix(q[1..], t[1..], escape);
        assert q <= t <==> q[1..] <= t[1..];
      }
    }
  }

  lemma {:induction false} LikeAnything(t: string, escape: bool)
    ensures Like("%", t, escape)
  {
    if t != "" {
      LikeAnything(t[1..], escape);
    }
  }

  /** `%q%` matches exactly the texts q occurs in. */
  lemma {:induction false} LikeInfix(q: string, t: string, escape: bool)
    requires !Wild(q, escape)
    ensures Like("%" + q + "%", t, escape) <==> Occurs(q, t)
  {
    hide Wild;
    assert ("%" + q + "%")[1..] == q + "%";
    LikePrefix(q, t, escape);
    if t != "" {
      LikeInfix(q, t[1..], escape);
    }
  }

  lemma {:induction false} OccursCut(q: string, t: string) returns (a: string, b: string)
    requires Occurs(q, t)
    ensures t == a + q + b
  {
    if q <= t {
      a, b := "", t[|q|..];
    } else {
      a, b := OccursCut(q, t[1..]);
      a := [t[0]] + a;
    }
  }

  lemma {:induction false} CutOccurs(a: string, q: string, b: string)
    ensures Occurs(q, a + q + b)
  {
    if a != "" {
      CutOccurs(a[1..], q, b);
      assert (a + q + b)[1..] == a[1..] + q + b;
    }
  }

  // ---------- text cut at its quotes ----------

  const Q := '"'

  function Last(s: seq<string>): string
    requires s != []
  {
    s[|s| - 1]
  }

  /** Two lists of pieces, the last of the one glued to the first of the other. */
  function Glue(a: seq<string>, b: seq<string>): seq<string>
    requires a != [] && b != []
  {
    a[..|a| - 1] + [Last(a) + b[0]] + b[1..]
  }

  lemma GlueCons(x: string, a: seq<string>, b: seq<string>)
    requires a != [] && b != []
    ensures Glue([x] + a, b) == [x] + Glue(a, b)
  {
  }

  lemma Regroup(a: string, b: string, c: string, d: string)
    ensures a + (b + c) + d == (a + b) + c + d
    ensures a + (b + c) + d == a + b + (c + d)
    ensures a + (b + c + d) == a + b + c + d
  {
  }

  /** Splitting a concatenation glues the last piece to the first. */
  lemma {:induction false} SplitAppend(a: string, b: string)
    ensures Split(a + b, Q) == Glue(Split(a, Q), Split(b, Q))
  {
    var B := Split(b, Q);
    if a == "" {
      assert a + b == b;
      assert "" + B[0] == B[0];
      assert [""][..0] + [B[0]] + B[1..] == B;
    } else {
      SplitAppend(a[1..], b);
      assert (a + b)[1..] == a[1..] + b;
      var R := Split(a[1..], Q);
      if a[0] == Q {
        GlueCons("", R, B);
      } else {
        GlueHead(a[0], R, B);
      }
    }
  }

  lemma GlueHead(c: char, r: seq<string>, b: seq<string>)
    requires r != [] && b != []
    ensures Glue([[c] + r[0]] + r[1..], b) == [[c] + Glue(r, b)[0]] + Glue(r, b)[1..]
  {
    var h := [[c] + r[0]];
    if |r| == 1 {
      assert [c] + (r[0] + b[0]) == [c] + r[0] + b[0];
      assert h + r[1..] == h;
      assert Glue(r, b) == [r[0] + b[0]] + b[1..];
    } else {
      GlueCons(h[0], r[1..], b);
      GlueCons(r[0], r[1..], b);
      assert r == [r[0]] + r[1..];
    }
  }

  lemma SplitAt(a: string, b: string)
    ensures Split(a + [Q] + b, Q) == Split(a, Q) + Split(b, Q)
  {
    SplitAppend(a, [Q] + b);
    assert Split([Q] + b, Q) == [""] + Split(b, Q) by { assert ([Q] + b)[1..] == b; }
    assert a + [Q] + b == a + ([Q] + b);
    hide Split;
    assert Last(Split(a, Q)) + "" == Last(Split(a, Q));
  }

  lemma {:induction false} JoinAt(segs: seq<string>, i: nat)
    requires 0 < i < |segs|
    ensures Join(segs, Q) == Join(segs[..i], Q) + [Q] + Join(segs[i..], Q)
  {
    if i == 1 {
      assert segs[..1] == [segs[0]];
    } else {
      JoinAt(segs[1..], i - 1);
      assert segs[1..][..i - 1] == segs[..i][1..] && segs[1..][i - 1..] == segs[i..];
      assert segs[..i][0] == segs[0];
    }
  }

  predicate QuoteFree(segs: seq<string>) {
    forall s <- segs :: Q !in s
  }

  /** `"q"` occurs exactly where q is a whole inner segment. */
  lemma OccursWhole(q: string, segs: seq<string>)
    requires segs != [] && QuoteFree(segs) && Q !in q
    ensures Occurs([Q] + q + [Q], Join(segs, Q)) <==> exists i :: 0 < i < |segs| - 1 && segs[i] == q
  {
    hide Split, Join, Occurs;
    if Occurs([Q] + q + [Q], Join(segs, Q)) {
      var a, b := OccursCut([Q] + q + [Q], Join(segs, Q));
      var i := WholeSegment(q, segs, a, b);
    }
    if exists i :: 0 < i < |segs| - 1 && segs[i] == q {
      var i :| 0 < i < |segs| - 1 && segs[i] == q;
      WholeOccurs(q, segs, i);
    }
  }

  lemma WholeOccurs(q: string, segs: seq<string>, i: nat)
    requires 0 < i < |segs| - 1 && segs[i] == q
    ensures Occurs([Q] + q + [Q], Join(segs, Q))
  {
    hide Join, Occurs;
    var before, after := Join(segs[..i], Q), Join(segs[i + 1..], Q);
    JoinAt(segs, i);
    JoinAt(segs[i..], 1);
    assert segs[i..][..1] == [q] && segs[i..][1..] == segs[i + 1..];
    JoinSingle(q);
    assert before + [Q] + (q + [Q] + after) == before + ([Q] + q + [Q]) + after;
    CutOccurs(before, [Q] + q + [Q], after);
  }

  lemma WholeSegment(q: string, segs: seq<string>, a: string, b: string) returns (i: nat)
    requires segs != [] && QuoteFree(segs) && Q !in q && Join(segs, Q) == a + ([Q] + q + [Q]) + b
    ensures 0 < i < |segs| - 1 && segs[i] == q
  {
    hide Split, Join;
    SplitJoin(segs, Q);
    assert a + ([Q] + q + [Q]) + b == a + [Q] + (q + [Q] + b);
    SplitAt(a, q + [Q] + b);
    SplitAt(q, b);
    SplitOne(q, Q);
    i := |Split(a, Q)|;
    hide *;
    assert segs == Split(a, Q) + ([q] + Split(b, Q));
  }

  lemma JoinSingle(q: string)
    ensures Join([q], Q) == q
  {
  }

  /** `"q` occurs exactly where q begins a segment after the first. */
  lemma OccursOpening(q: string, segs: seq<string>)
    requires segs != [] && QuoteFree(segs) && Q !in q
    ensures Occurs([Q] + q, Join(segs, Q)) <==> exists i :: 0 < i < |segs| && q <= segs[i]
  {
    hide Split, Join, Occurs;
    if Occurs([Q] + q, Join(segs, Q)) {
      var a, b := OccursCut([Q] + q, Join(segs, Q));
      var i := OpenedSegment(q, segs, a, b);
    }
    if exists i :: 0 < i < |segs| && q <= segs[i] {
      var i :| 0 < i < |segs| && q <= segs[i];
      JoinAt(segs, i);
      StartsWithFirst(segs[i..]);
      var before, u := Join(segs[..i], Q), Join(segs[i..], Q);
      assert q <= u by { assert segs[i..][0] == segs[i]; }
      var rest := u[|q|..];
      assert u == q + rest;
      Regroup(before, [Q], q, rest);
      assert Join(segs, Q) == before + ([Q] + q) + rest;
      CutOccurs(before, [Q] + q, rest);
    }
  }

  lemma OpenedSegment(q: string, segs: seq<string>, a: string, b: string) returns (i: nat)
    requires segs != [] && QuoteFree(segs) && Q !in q && Join(segs, Q) == a + ([Q] + q) + b
    ensures 0 < i < |segs| && q <= segs[i]
  {
    hide Split, Join;
    SplitJoin(segs, Q);
    Regroup(a, [Q], q, b);
    SplitAt(a, q + b);
    SplitAppend(q, b);
    SplitOne(q, Q);
    i := |Split(a, Q)|;
    hide *;
    assert segs[i] == Split(q + b, Q)[0];
    assert Split(q + b, Q)[0] == q + Split(b, Q)[0];
  }

  lemma StartsWithFirst(segs: seq<string>)
    requires segs != []
    ensures segs[0] <= Join(segs, Q)
  {
  }

  lemma {:induction false} EndsWithLast(segs: seq<string>) returns (a: string)
    requires segs != []
    ensures Join(segs, Q) == a + Last(segs)
  {
    if |segs| == 1 {
      a := "";
    } else {
      a := EndsWithLast(segs[1..]);
      a := segs[0] + [Q] + a;
    }
  }

  predicate EndsWith(s: string, q: string) {
    |q| <= |s| && s[|s| - |q|..] == q
  }

  /** `q"` occurs exactly where q ends a segment before the last. */
  lemma OccursClosing(q: string, segs: seq<string>)
    requires segs != [] && QuoteFree(segs) && Q !in q
    ensures Occurs(q + [Q], Join(segs, Q)) <==> exists i :: 0 <= i < |segs| - 1 && EndsWith(segs[i], q)
  {
    hide Split, Join, Occurs;
    if Occurs(q + [Q], Join(segs, Q)) {
      var a, b := OccursCut(q + [Q], Join(segs, Q));
      var i := ClosedSegment(q, segs, a, b);
    }
    if exists i :: 0 <= i < |segs| - 1 && EndsWith(segs[i], q) {
      var i :| 0 <= i < |segs| - 1 && EndsWith(segs[i], q);
      ClosingOccurs(q, segs, i);
    }
  }

  lemma ClosingOccurs(q: string, segs: seq<string>, i: nat)
    requires i < |segs| - 1 && EndsWith(segs[i], q)
    ensures Occurs(q + [Q], Join(segs, Q))
  {
    hide Join, Occurs;
    JoinAt(segs, i + 1);
    var a := EndsWithLast(segs[..i + 1]);
    var s, after := segs[i], Join(segs[i + 1..], Q);
    var head := s[..|s| - |q|];
    var u := a + head;
    assert a + s == u + q by { assert s == head + q; }
    Regroup(u, q, [Q], after);
    CutOccurs(u, q + [Q], after);
  }

  lemma ClosedSegment(q: string, segs: seq<string>, a: string, b: string) returns (i: nat)
    requires segs != [] && QuoteFree(segs) && Q !in q && Join(segs, Q) == a + (q + [Q]) + b
    ensures 0 <= i < |segs| - 1 && EndsWith(segs[i], q)
  {
    hide Split, Join;
    SplitJoin(segs, Q);
    Regroup(a, q, [Q], b);
    SplitAt(a + q, b);
    SplitAppend(a, q);
    SplitOne(q, Q);
    i := |Split(a + q, Q)| - 1;
    assert segs[i] == Last(Split(a, Q)) + q;
  }

  /** Text without quotes occurs exactly where it occurs inside one segment. */
  lemma OccursInside(q: string, segs: seq<string>)
    requires segs != [] && QuoteFree(segs) && Q !in q
    ensures Occurs(q, Join(segs, Q)) <==> exists i :: 0 <= i < |segs| && Occurs(q, segs[i])
  {
    hide Split, Join, Occurs;
    if Occurs(q, Join(segs, Q)) {
      var a, b := OccursCut(q, Join(segs, Q));
      var i := SegmentAround(q, segs, a, b);
    }
    if exists i :: 0 <= i < |segs| && Occurs(q, segs[i]) {
      var i :| 0 <= i < |segs| && Occurs(q, segs[i]);
      var a, b := OccursCut(q, segs[i]);
      var u, v := AroundSegment(segs, i);
      Regroup(u, a + q, b, v);
      Regroup(u, a, q, b + v);
      assert Join(segs, Q) == (u + a) + q + (b + v);
      CutOccurs(u + a, q, b + v);
    }
  }

  lemma SegmentAround(q: string, segs: seq<string>, a: string, b: string) returns (i: nat)
    requires segs != [] && QuoteFree(segs) && Q !in q && Join(segs, Q) == a + q + b
    ensures 0 <= i < |segs| && Occurs(q, segs[i])
  {
    hide Split, Join, Occurs;
    SplitJoin(segs, Q);
    SplitAppend(a + q, b);
    SplitAppend(a, q);
    SplitOne(q, Q);
    i := |Split(a, Q)| - 1;
    var x, y := Last(Split(a, Q)), Split(b, Q)[0];
    assert segs[i] == x + q + y;
    CutOccurs(x, q, y);
  }

  lemma {:induction false} AroundSegment(segs: seq<string>, i: nat) returns (u: string, v: string)
    requires i < |segs|
    ensures Join(segs, Q) == u + segs[i] + v
  {
    if |segs| == 1 {
      u, v := "", "";
    } else if i == 0 {
      u, v := "", [Q] + Join(segs[1..], Q);
    } else {
      u, v := AroundSegment(segs[1..], i - 1);
      u := segs[0] + [Q] + u;
    }
  }

  // ---------- the text of a list of tags ----------

  /** A tag that JSON writes without escapes (section 7 of RFC 8259). */
  predicate Plain(t: string) {
    Q !in t && '\\' !in t && forall c <- t :: c >= ' '
  }

  /** The segments from the i-th tag on: each tag, then what is written after it. */
  function Inner(tags: seq<string>, sep: string): (segs: seq<string>)
    requires tags != []
    ensures |segs| == 2 * |tags|
  {
    if |tags| == 1 then [tags[0], "]"] else [tags[0], sep] + Inner(tags[1..], sep)
  }

  /** A list text cut at its quotes: tags at the odd places, punctuation at the even ones. */
  function Segments(tags: seq<string>, sep: string): seq<string> {
    if tags == [] then ["[]"] else ["["] + Inner(tags, sep)
  }

  /** The elements of a JSON list, each in quotes; dialects differ in what they write between them. */
  function Elements(tags: seq<string>, sep: string): string
    requires tags != []
  {
    [Q] + tags[0] + [Q] + if |tags| == 1 then "" else sep + Elements(tags[1..], sep)
  }

  /** The JSON text of a list of plain tags. */
  function ListText(tags: seq<string>, sep: string): string {
    if tags == [] then "[]" else "[" + Elements(tags, sep) + "]"
  }

  lemma {:induction false} InnerAt(tags: seq<string>, sep: string, k: nat)
    requires k < |tags|
    ensures Inner(tags, sep)[2 * k] == tags[k]
    ensures Inner(tags, sep)[2 * k + 1] == if k == |tags| - 1 then "]" else sep
  {
    if k > 0 {
      InnerAt(tags[1..], sep, k - 1);
      assert Inner(tags, sep) == [tags[0], sep] + Inner(tags[1..], sep);
    }
  }

  lemma {:induction false} InnerText(tags: seq<string>, sep: string)
    requires tags != []
    ensures [Q] + Join(Inner(tags, sep), Q) == Elements(tags, sep) + "]"
  {
    if |tags| == 1 {
      JoinTwo(tags[0], "]");
      var t := tags[0];
      assert [Q] + (t + [Q] + "]") == ([Q] + t + [Q] + "") + "]";
    } else {
      InnerText(tags[1..], sep);
      var t, rest := tags[0], Inner(tags[1..], sep);
      JoinPair(t, sep, rest);
      InnerStep(t, sep, Join(rest, Q), Elements(tags[1..], sep));
    }
  }

  lemma InnerStep(t: string, sep: string, joined: string, elements: string)
    requires [Q] + joined == elements + "]"
    ensures [Q] + (t + [Q] + (sep + [Q] + joined)) == ([Q] + t + [Q] + (sep + elements)) + "]"
  {
    assert sep + [Q] + joined == sep + ([Q] + joined);
    assert sep + (elements + "]") == (sep + elements) + "]";
    var s := sep + elements;
    assert [Q] + (t + [Q] + (s + "]")) == ([Q] + t + [Q] + s) + "]";
  }

  lemma JoinTwo(a: string, b: string)
    ensures Join([a, b], Q) == a + [Q] + b
  {
    assert [a, b][1..] == [b];
  }

  lemma JoinPair(a: string, b: string, rest: seq<string>)
    requires rest != []
    ensures Join([a, b] + rest, Q) == a + [Q] + (b + [Q] + Join(rest, Q))
  {
    assert ([a, b] + rest)[1..] == [b] + rest;
    assert ([b] + rest)[1..] == rest;
  }

  lemma ListTextSegments(tags: seq<string>, sep: string)
    ensures ListText(tags, sep) == Join(Segments(tags, sep), Q)
  {
    if tags == [] {
      JoinSingle("[]");
    } else {
      InnerText(tags, sep);
      var inner := Inner(tags, sep);
      assert (["["] + inner)[1..] == inner;
      assert Join(["["] + inner, Q) == "[" + [Q] + Join(inner, Q);
      hide Join, Elements, Inner;
      assert "[" + [Q] + Join(inner, Q) == "[" + ([Q] + Join(inner, Q));
      assert "[" + (Elements(tags, sep) + "]") == "[" + Elements(tags, sep) + "]";
    }
  }

  lemma SegmentsQuoteFree(tags: seq<string>, sep: string)
    requires QuoteFree(tags) && Q !in sep
    ensures QuoteFree(Segments(tags, sep))
  {
    var segs := Segments(tags, sep);
    forall i | 0 <= i < |segs|
      ensures Q !in segs[i]
    {
      if 0 < i {
        InnerAt(tags, sep, (i - 1) / 2);
      }
    }
  }

  // ---------- what the four tag patterns match ----------

  /** The separators dialects write: minified JSON, or a comma and a space. */
  predicate Separator(sep: string) {
    sep == "," || sep == ", "
  }

  predicate PlainTags(tags: seq<string>) {
    forall t <- tags :: Plain(t)
  }

  lemma CutAtQuotes(tags: seq<string>, sep: string)
    requires PlainTags(tags) && Separator(sep)
    ensures ListText(tags, sep) == Join(Segments(tags, sep), Q) && QuoteFree(Segments(tags, sep))
  {
    ListTextSegments(tags, sep);
    SegmentsQuoteFree(tags, sep);
  }

  /** The i-th segment is a tag or a piece of punctuation. */
  lemma SegmentAt(tags: seq<string>, sep: string, i: nat)
    requires tags != [] && i <= 2 * |tags|
    ensures |Segments(tags, sep)| == 2 * |tags| + 1
    ensures Segments(tags, sep)[i] ==
            if i % 2 == 1 then tags[(i - 1) / 2] else if i == 0 then "[" else if i == 2 * |tags| then "]" else sep
  {
    if i > 0 {
      InnerAt(tags, sep, (i - 1) / 2);
      assert Segments(tags, sep)[i] == Inner(tags, sep)[i - 1];
    }
  }

  /** `%"v"%` finds the tag v, and nothing else unless v is the separator itself. */
  lemma LikeTag(v: string, tags: seq<string>, sep: string, escape: bool)
    requires PlainTags(tags) && Separator(sep) && !Wild(v, escape) && Q !in v
    ensures Like("%" + ([Q] + v + [Q]) + "%", ListText(tags, sep), escape) <==>
            v in tags || (v == sep && |tags| >= 2)
  {
    hide Like, Occurs, ListText, Segments, Join;
    LikeInfix([Q] + v + [Q], ListText(tags, sep), escape);
    CutAtQuotes(tags, sep);
    var segs := Segments(tags, sep);
    SegmentsNonEmpty(tags, sep);
    OccursWhole(v, segs);
    if tags != [] {
      forall i | 0 < i < |segs| - 1
        ensures segs[i] == if i % 2 == 1 then tags[(i - 1) / 2] else sep
      {
        SegmentAt(tags, sep, 0);
        SegmentAt(tags, sep, i);
      }
      SegmentAt(tags, sep, 0);
      if v in tags {
        var k :| 0 <= k < |tags| && tags[k] == v;
        assert segs[2 * k + 1] == v;
      }
      if v == sep && |tags| >= 2 {
        assert segs[2] == v;
      }
    }
  }

  lemma SegmentsNonEmpty(tags: seq<string>, sep: string)
    ensures |Segments(tags, sep)| == 2 * |tags| + 1
  {
  }

  /** `%"p%` finds the tags starting with p, and otherwise only the start of some punctuation. */
  lemma LikeTagPrefix(p: string, tags: seq<string>, sep: string, escape: bool)
    requires PlainTags(tags) && Separator(sep) && !Wild(p, escape) && Q !in p
    ensures Like("%" + ([Q] + p) + "%", ListText(tags, sep), escape) <==>
            (exists t <- tags :: p <= t) || (p <= "]" && |tags| >= 1) || (p <= sep && |tags| >= 2)
  {
    hide Like, Occurs, ListText, Segments, Join;
    LikeInfix([Q] + p, ListText(tags, sep), escape);
    CutAtQuotes(tags, sep);
    var segs := Segments(tags, sep);
    SegmentsNonEmpty(tags, sep);
    OccursOpening(p, segs);
    if tags != [] {
      forall i | 0 < i < |segs|
        ensures segs[i] == if i % 2 == 1 then tags[(i - 1) / 2] else if i == 2 * |tags| then "]" else sep
      {
        SegmentAt(tags, sep, i);
      }
      if exists t <- tags :: p <= t {
        var t :| t in tags && p <= t;
        var k :| 0 <= k < |tags| && tags[k] == t;
        assert segs[2 * k + 1] == t;
      }
      if p <= sep && |tags| >= 2 {
        assert segs[2] == sep;
      }
      assert segs[2 * |tags|] == "]";
      if exists i :: 0 < i < |segs| && p <= segs[i] {
        var i :| 0 < i < |segs| && p <= segs[i];
        assert i % 2 == 1 ==> tags[(i - 1) / 2] in tags;
      }
    }
  }

  /** `%"v/%` finds exactly the tags starting with v/: no punctuation contains a slash. */
  lemma LikeTagChild(v: string, tags: seq<string>, sep: string, escape: bool)
    requires PlainTags(tags) && Separator(sep) && !Wild(v, escape) && Q !in v
    ensures Like("%" + ([Q] + (v + "/")) + "%", ListText(tags, sep), escape) <==> exists t <- tags :: v + "/" <= t
  {
    hide Like;
    LikeTagPrefix(v + "/", tags, sep, escape);
    assert (v + "/")[|v|] == '/';
  }

  /** `%s"%` finds the tags ending with s, and otherwise only the end of some punctuation. */
  lemma LikeTagSuffix(s: string, tags: seq<string>, sep: string, escape: bool)
    requires PlainTags(tags) && Separator(sep) && !Wild(s, escape) && Q !in s
    ensures Like("%" + (s + [Q]) + "%", ListText(tags, sep), escape) <==>
            || (exists t <- tags :: EndsWith(t, s))
            || (EndsWith("[", s) && |tags| >= 1)
            || (EndsWith(sep, s) && |tags| >= 2)
  {
    hide Like, Occurs, ListText, Segments, Join, EndsWith;
    LikeInfix(s + [Q], ListText(tags, sep), escape);
    CutAtQuotes(tags, sep);
    var segs := Segments(tags, sep);
    SegmentsNonEmpty(tags, sep);
    OccursClosing(s, segs);
    if tags != [] {
      forall i | 0 <= i < |segs| - 1
        ensures segs[i] == if i % 2 == 1 then tags[(i - 1) / 2] else if i == 0 then "[" else sep
      {
        SegmentAt(tags, sep, i);
      }
      if exists t <- tags :: EndsWith(t, s) {
        var t :| t in tags && EndsWith(t, s);
        var k :| 0 <= k < |tags| && tags[k] == t;
        assert segs[2 * k + 1] == t;
      }
      if EndsWith(sep, s) && |tags| >= 2 {
        assert segs[2] == sep;
      }
      assert segs[0] == "[";
      if exists i :: 0 <= i < |segs| - 1 && EndsWith(segs[i], s) {
        var i :| 0 <= i < |segs| - 1 && EndsWith(segs[i], s);
        assert i % 2 == 1 ==> tags[(i - 1) / 2] in tags;
      }
    }
  }

  /** `%s%` finds the tags containing s, and otherwise only text inside some punctuation. */
  lemma LikeTagInfix(s: string, tags: seq<string>, sep: string, escape: bool)
    requires PlainTags(tags) && Separator(sep) && !Wild(s, escape) && Q !in s && tags != []
    ensures Like("%" + s + "%", ListText(tags, sep), escape) <==>
            (exists t <- tags :: Occurs(s, t)) || Occurs(s, "[") || Occurs(s, "]") || (Occurs(s, sep) && |tags| >= 2)
  {
    hide Like, Occurs, ListText, Segments, Join;
    LikeInfix(s, ListText(tags, sep), escape);
    CutAtQuotes(tags, sep);
    var segs := Segments(tags, sep);
    SegmentsNonEmpty(tags, sep);
    OccursInside(s, segs);
    forall i | 0 <= i < |segs|
      ensures segs[i] ==
              if i % 2 == 1 then tags[(i - 1) / 2] else if i == 0 then "[" else if i == 2 * |tags| then "]" else sep
    {
      SegmentAt(tags, sep, i);
    }
    if exists t <- tags :: Occurs(s, t) {
      var t :| t in tags && Occurs(s, t);
      var k :| 0 <= k < |tags| && tags[k] == t;
      assert segs[2 * k + 1] == t;
    }
    if Occurs(s, sep) && |tags| >= 2 {
      assert segs[2] == sep;
    }
    assert segs[0] == "[" && segs[2 * |tags|] == "]";
  }
}

/** What the tag tests of memos/lib/filter/render.go find in the JSON text of a list, and exactly for which
    literals that is what they are meant to find. */
module FilterTags {
  import opened Calendar
  import opened Text
  import opened FilterIR
  import opened FilterSql
  import Like
  import LikeExact

  // ---------- literals the text tests take as they stand ----------

  /** A literal LIKE and JSON take as it stands. */
  predicate CleanLiteral(s: string) {
    Like.Plain(s) && !Like.Wild(s, true)
  }

  /** A tag the text test `%"v"%` takes as it stands. */
  predicate TameTag(d: Dialect, v: string) {
    !Like.Wild(v, d != SQLite) && v != Sep(d)
  }

  /** `v in list` is a text test on SQLite only. */
  predicate CleanElement(d: Dialect, v: string) {
    Like.Plain(v) && (d == SQLite ==> TameTag(d, v))
  }

  /** `tag in [v]` also looks for tags below v, as text everywhere. */
  predicate CleanTag(d: Dialect, v: string) {
    CleanLiteral(v) && (d == SQLite ==> v != Sep(d))
  }

  predicate CleanPredicate(d: Dialect, p: TagPredicate) {
    match p
    case Equals(v) => Like.Plain(v) && (d != Postgres ==> TameTag(d, v))
    case StartsWith(x) => CleanLiteral(x) && (x == "" || !(x <= "]" || x <= Sep(d)))
    case EndsWith(x) => CleanLiteral(x) && (x == "" || !(Like.EndsWith("[", x) || Like.EndsWith(Sep(d), x)))
    case Contains(x) =>
      CleanLiteral(x) && (x == "" || !(Like.Occurs(x, "[") || Like.Occurs(x, "]") || Like.Occurs(x, Sep(d))))
  }

  predicate CleanValue(d: Dialect, v: ValueExpr) {
    v.Lit? && v.value.LStr? ==> CleanTag(d, v.value.s)
  }

  /** The dialect's tests take the tag literals of the tree as they stand, where folding leaves them. */
  predicate Clean(d: Dialect, c: Condition) {
    || Folds(c).Some?
    || match c
       case Logical(_, l, r) => Clean(d, l) && Clean(d, r)
       case Not(e) => Clean(d, e)
       case In(needle, values) => needle == FieldRef("tag") ==> forall v <- values :: CleanValue(d, v)
       case ElementIn(e, _) => e.Lit? && e.value.LStr? ==> CleanElement(d, e.value.s)
       case Exists(_, p) => CleanPredicate(d, p)
       case _ => true
  }

  function TextOf(p: TagPredicate): string {
    match p case Equals(v) => v case StartsWith(x) => x case EndsWith(x) => x case Contains(x) => x
  }

  predicate PlainValue(v: ValueExpr) {
    v.Lit? && v.value.LStr? && Like.Plain(v.value.s)
  }

  /** A test for one tag, negated or not. */
  predicate SingleTag(c: Condition) {
    match c
    case Not(e) => SingleTag(e)
    case In(needle, values) => needle == FieldRef("tag") && |values| == 1 && PlainValue(values[0])
    case ElementIn(e, _) => PlainValue(e)
    case Exists(_, p) => Like.Plain(TextOf(p))
    case _ => false
  }

  predicate PlainLists(row: Row) {
    forall r <- row.lists :: Like.PlainTags(row.lists[r])
  }

  // ---------- the text tests on clean rows ----------

  lemma {:induction false} EncodePlain(t: string)
    requires Like.Plain(t)
    ensures EncodeTag(t) == t
  {
    if t != "" {
      assert t[0] in t && forall c <- t[1..] :: c in t;
      EncodePlain(t[1..]);
      assert [t[0]] + t[1..] == t;
    }
  }

  lemma {:induction false} EncodePlainAll(tags: seq<string>)
    requires Like.PlainTags(tags)
    ensures EncodeAll(tags) == tags
  {
    if tags != [] {
      assert tags[0] in tags && forall t <- tags[1..] :: t in tags;
      EncodePlain(tags[0]);
      EncodePlainAll(tags[1..]);
    }
  }

  function FoldAll(d: Dialect, tags: seq<string>): (folded: seq<string>)
    ensures |folded| == |tags| && forall i :: 0 <= i < |tags| ==> folded[i] == Fold(d, tags[i])
  {
    if tags == [] then [] else [Fold(d, tags[0])] + FoldAll(d, tags[1..])
  }

  lemma FoldConcat(d: Dialect, a: string, b: string)
    ensures Fold(d, a + b) == Fold(d, a) + Fold(d, b)
  {
    if d == SQLite {
      LowerConcat(a, b);
    }
  }

  lemma FoldMark(d: Dialect, s: string)
    requires forall c <- s :: !('A' <= c <= 'Z')
    ensures Fold(d, s) == s
  {
    assert forall i :: 0 <= i < |s| ==> s[i] in s;
  }

  lemma {:induction false} FoldElements(d: Dialect, tags: seq<string>, sep: string)
    requires tags != [] && Like.Separator(sep)
    ensures Fold(d, Like.Elements(tags, sep)) == Like.Elements(FoldAll(d, tags), sep)
  {
    hide Fold;
    var q := [Like.Q];
    FoldMark(d, q);
    FoldMark(d, sep);
    FoldMark(d, "");
    FoldConcat(d, q, tags[0]);
    FoldConcat(d, q + tags[0], q);
    var head := q + tags[0] + q;
    if |tags| > 1 {
      FoldElements(d, tags[1..], sep);
      FoldConcat(d, sep, Like.Elements(tags[1..], sep));
      FoldConcat(d, head, sep + Like.Elements(tags[1..], sep));
      assert FoldAll(d, tags)[1..] == FoldAll(d, tags[1..]);
    } else {
      FoldConcat(d, head, "");
    }
  }

  lemma FoldListText(d: Dialect, tags: seq<string>, sep: string)
    requires Like.Separator(sep)
    ensures Fold(d, Like.ListText(tags, sep)) == Like.ListText(FoldAll(d, tags), sep)
  {
    hide Fold;
    FoldMark(d, "[]");
    FoldMark(d, "[");
    FoldMark(d, "]");
    if tags != [] {
      FoldElements(d, tags, sep);
      FoldConcat(d, "[", Like.Elements(tags, sep));
      FoldConcat(d, "[" + Like.Elements(tags, sep), "]");
    }
  }

  lemma FoldPlain(d: Dialect, s: string)
    ensures Like.Plain(s) ==> Like.Plain(Fold(d, s))
    ensures !Like.Wild(s, true) ==> !Like.Wild(Fold(d, s), true)
    ensures Like.Q !in s ==> Like.Q !in Fold(d, s)
  {
    LikeExact.LowerWild(s, true);
    LowerKeeps(s, Like.Q);
    LowerKeeps(s, '\\');
    if Like.Plain(s) {
      forall c | c in ToLower(s) ensures c >= ' ' {
        var i :| 0 <= i < |s| && ToLower(s)[i] == c;
        assert s[i] in s;
      }
    }
    hide ToLower, Like.Wild;
  }

  /** A clean row's pattern test is the pattern test of its folded tags. */
  lemma ListMatchesFolded(d: Dialect, q: string, tags: seq<string>)
    requires Like.PlainTags(tags)
    ensures ListMatches(d, "%" + q + "%", tags) <==>
            Like.Like("%" + Fold(d, q) + "%", Like.ListText(FoldAll(d, tags), Sep(d)), d != SQLite)
    ensures Like.PlainTags(FoldAll(d, tags)) && Like.Separator(Sep(d))
  {
    hide Fold, Like.Like, Like.ListText, Like.Plain;
    EncodePlainAll(tags);
    FoldListText(d, tags, Sep(d));
    FoldMark(d, "%");
    FoldConcat(d, "%", q);
    FoldConcat(d, "%" + q, "%");
    var folded := FoldAll(d, tags);
    forall t | t in folded
      ensures Like.Plain(t)
    {
      var i :| 0 <= i < |folded| && folded[i] == t;
      assert tags[i] in tags;
      FoldPlain(d, tags[i]);
    }
  }

  /** Tests on folded tags are tests up to case on the tags. */
  lemma FoldedTags(d: Dialect, tags: seq<string>, v: string)
    ensures Fold(d, v) in FoldAll(d, tags) <==> IsTag(d, tags, v)
    ensures (exists t <- FoldAll(d, tags) :: Fold(d, v) <= t) <==> HasPrefix(d, tags, v)
    ensures (exists t <- FoldAll(d, tags) :: Like.EndsWith(t, Fold(d, v))) <==> HasSuffix(d, tags, v)
    ensures (exists t <- FoldAll(d, tags) :: Like.Occurs(Fold(d, v), t)) <==> HasInfix(d, tags, v)
  {
    hide Fold, Like.EndsWith, Like.Occurs;
    var folded := FoldAll(d, tags);
    forall t | t in folded
      ensures exists u <- tags :: Fold(d, u) == t
    {
      var i :| 0 <= i < |folded| && folded[i] == t;
      assert tags[i] in tags;
    }
    forall u | u in tags
      ensures Fold(d, u) in folded
    {
      var i :| 0 <= i < |tags| && tags[i] == u;
      assert folded[i] in folded;
    }
  }

  /** Punctuation is not changed by folding, and nothing else folds to it. */
  lemma FoldSep(d: Dialect, v: string)
    ensures Fold(d, v) == Sep(d) <==> v == Sep(d)
  {
    if Fold(d, v) == Sep(d) {
      assert forall i :: 0 <= i < |v| ==> v[i] == Fold(d, v)[i];
    }
    FoldMark(d, Sep(d));
  }

  lemma MatchesTag(d: Dialect, v: string, tags: seq<string>)
    requires Like.PlainTags(tags) && Like.Plain(v) && TameTag(d, v)
    ensures ListMatches(d, "%" + ("\"" + v + "\"") + "%", tags) <==> IsTag(d, tags, v)
  {
    hide Fold, Like.Like, Like.ListText, Like.Plain, Like.Wild, IsTag, ListMatches;
    FoldQuoted(d, v);
    ListMatchesFolded(d, "\"" + v + "\"", tags);
    FoldedTags(d, tags, v);
    FoldSep(d, v);
    PlainIsWild(d, v);
    CleanHasNoQuote(d, v);
    Like.LikeTag(Fold(d, v), FoldAll(d, tags), Sep(d), d != SQLite);
  }

  /** On every list of plain tags, the text test for a tag is membership. */
  ghost predicate FindsTag(d: Dialect, v: string) {
    forall tags :: Like.PlainTags(tags) ==>
      (ListMatches(d, "%" + ("\"" + v + "\"") + "%", tags) <==> IsTag(d, tags, v))
  }

  /** That is so exactly for tags that hold no `%` and no `_`, and are not the separator. */
  lemma MatchesTagExactly(d: Dialect, v: string)
    requires Like.Plain(v)
    ensures FindsTag(d, v) <==> TameTag(d, v)
  {
    hide ListMatches, IsTag, Like.PlainTags;
    if Like.Wild(v, d != SQLite) {
      var tags := WildListFound(d, [Like.Q], v, [Like.Q]);
    } else if v == Sep(d) {
      SeparatorFound(d);
    } else {
      forall tags | Like.PlainTags(tags)
        ensures ListMatches(d, "%" + ("\"" + v + "\"") + "%", tags) <==> IsTag(d, tags, v)
      {
        MatchesTag(d, v, tags);
      }
    }
  }

  lemma FoldBetween(d: Dialect, pre: string, v: string, post: string)
    requires LikeExact.QuoteOrNothing(pre) && LikeExact.QuoteOrNothing(post)
    ensures Fold(d, pre + v + post) == pre + Fold(d, v) + post
  {
    FoldMark(d, pre);
    FoldMark(d, post);
    hide Fold;
    FoldConcat(d, pre, v);
    FoldConcat(d, pre + v, post);
  }

  /** The list of a wild literal's sample alone is found, though nothing of the literal is in it. */
  lemma WildListFound(d: Dialect, pre: string, v: string, post: string) returns (tags: seq<string>)
    requires LikeExact.QuoteOrNothing(pre) && LikeExact.QuoteOrNothing(post)
    requires Like.Plain(v) && Like.Wild(v, d != SQLite)
    ensures Like.PlainTags(tags) && tags != [] && forall t <- tags :: |t| == |v|
    ensures ListMatches(d, "%" + (pre + v + post) + "%", tags)
    ensures !IsTag(d, tags, v) && !HasPrefix(d, tags, v) && !HasSuffix(d, tags, v) && !HasInfix(d, tags, v)
  {
    var w, escape := Fold(d, v), d != SQLite;
    FoldPlain(d, v);
    LikeExact.LowerWild(v, escape);
    assert |w| == |v| && '\\' !in w;
    hide Like.Wild, Like.Plain, Like.Like, Like.ListText, ListMatches, LikeExact.Sample, Fold;
    tags := [LikeExact.Sample(w, escape)];
    LikeExact.SampleLength(w, escape);
    LikeExact.WildTag(pre, w, post, Sep(d), escape);
    SampleFolded(d, v);
    FoldAllFixed(d, tags);
    FoldBetween(d, pre, v, post);
    ListMatchesFolded(d, pre + v + post, tags);
    FoldedTags(d, tags, v);
    hide *;
    assert w !in tags;
  }

  lemma SampleFolded(d: Dialect, v: string)
    ensures var s := LikeExact.Sample(Fold(d, v), d != SQLite); Fold(d, s) == s
  {
    if d == SQLite {
      LowerHasNoCapitals(v);
      LikeExact.SampleLower(ToLower(v), false);
      LowerFixed(LikeExact.Sample(ToLower(v), false));
    }
  }

  lemma {:induction false} FoldAllFixed(d: Dialect, tags: seq<string>)
    requires forall t <- tags :: Fold(d, t) == t
    ensures FoldAll(d, tags) == tags
  {
    hide Fold;
    if tags != [] {
      assert tags[0] in tags && forall t <- tags[1..] :: t in tags;
      FoldAllFixed(d, tags[1..]);
      assert tags == [tags[0]] + tags[1..];
    }
  }

  lemma SeparatorIsPlain(d: Dialect)
    ensures Like.Separator(Sep(d)) && !Like.Wild(Sep(d), d != SQLite) && Like.Q !in Sep(d)
    ensures Fold(d, Sep(d)) == Sep(d) && FoldAll(d, ["a", "b"]) == ["a", "b"] && Sep(d) !in ["a", "b"]
  {
    FoldMark(d, Sep(d));
    FoldMark(d, "a");
    FoldMark(d, "b");
    hide Fold;
    FoldAllFixed(d, ["a", "b"]);
  }

  lemma SeparatorFound(d: Dialect)
    ensures Like.PlainTags(["a", "b"])
    ensures ListMatches(d, "%" + ("\"" + Sep(d) + "\"") + "%", ["a", "b"]) && !IsTag(d, ["a", "b"], Sep(d))
  {
    hide Fold, IsTag, ListMatches, Like.Like, Like.ListText, Like.Wild, Like.Plain, Like.PlainTags, FoldAll, Sep;
    var v, tags := Sep(d), ["a", "b"];
    LikeExact.TwoPlain();
    SeparatorIsPlain(d);
    FoldedTags(d, tags, v);
    FoldQuoted(d, v);
    ListMatchesFolded(d, "\"" + v + "\"", tags);
    Like.LikeTag(v, tags, v, d != SQLite);
  }

  lemma FoldQuoted(d: Dialect, v: string)
    ensures Fold(d, "\"" + v + "\"") == [Like.Q] + Fold(d, v) + [Like.Q]
    ensures Fold(d, "\"" + v) == [Like.Q] + Fold(d, v)
    ensures Fold(d, v + "\"") == Fold(d, v) + [Like.Q]
    ensures Fold(d, v + "/") == Fold(d, v) + "/"
  {
    hide Fold;
    FoldMark(d, "\"");
    FoldMark(d, "/");
    FoldConcat(d, "\"", v);
    FoldConcat(d, v, "/");
    FoldConcat(d, v, "\"");
    FoldConcat(d, "\"" + v, "\"");
  }

  lemma CleanHasNoQuote(d: Dialect, v: string)
    requires CleanLiteral(v)
    ensures !Like.Wild(Fold(d, v), d != SQLite) && Like.Q !in Fold(d, v)
  {
    FoldPlain(d, v);
  }

  lemma MatchesChild(d: Dialect, v: string, tags: seq<string>)
    requires Like.PlainTags(tags) && CleanLiteral(v)
    ensures ListMatches(d, "%" + ("\"" + v + "/") + "%", tags) <==> HasPrefix(d, tags, v + "/")
  {
    hide Fold, Like.Like, Like.ListText, Like.Plain, Like.Wild, HasPrefix, ListMatches;
    FoldQuoted(d, v);
    FoldQuoted(d, v + "/");
    assert "\"" + v + "/" == "\"" + (v + "/");
    ListMatchesFolded(d, "\"" + v + "/", tags);
    FoldedTags(d, tags, v + "/");
    CleanHasNoQuote(d, v);
    Like.LikeTagChild(Fold(d, v), FoldAll(d, tags), Sep(d), d != SQLite);
  }

  lemma MatchesPrefix(d: Dialect, p: string, tags: seq<string>)
    requires Like.PlainTags(tags) && CleanPredicate(d, StartsWith(p)) && tags != []
    ensures ListMatches(d, "%" + ("\"" + p) + "%", tags) <==> HasPrefix(d, tags, p)
  {
    FoldMarks(d, p);
    hide Fold, Like.Like, Like.ListText, Like.Plain, Like.Wild, ListMatches;
    FoldQuoted(d, p);
    ListMatchesFolded(d, "\"" + p, tags);
    FoldedTags(d, tags, p);
    CleanHasNoQuote(d, p);
    Like.LikeTagPrefix(Fold(d, p), FoldAll(d, tags), Sep(d), d != SQLite);
    if p == "" {
      assert tags[0] in tags;
    }
  }

  /** Punctuation begins, ends and contains the same texts folded or not. */
  lemma FoldMarks(d: Dialect, p: string)
    ensures Fold(d, p) <= "]" ==> p <= "]"
    ensures Fold(d, p) <= Sep(d) ==> p <= Sep(d)
    ensures Fold(d, "") == ""
  {
    assert forall i :: 0 <= i < |p| ==> Fold(d, p)[i] != p[i] ==> 'a' <= Fold(d, p)[i] <= 'z';
  }

  lemma MatchesSuffix(d: Dialect, s: string, tags: seq<string>)
    requires Like.PlainTags(tags) && CleanPredicate(d, EndsWith(s)) && tags != []
    ensures ListMatches(d, "%" + (s + "\"") + "%", tags) <==> HasSuffix(d, tags, s)
  {
    FoldEnds(d, s);
    hide Fold, Like.Like, Like.ListText, Like.Plain, Like.Wild, ListMatches;
    FoldQuoted(d, s);
    ListMatchesFolded(d, s + "\"", tags);
    FoldedTags(d, tags, s);
    CleanHasNoQuote(d, s);
    Like.LikeTagSuffix(Fold(d, s), FoldAll(d, tags), Sep(d), d != SQLite);
    if s == "" {
      assert tags[0] in tags;
    }
  }

  lemma FoldEnds(d: Dialect, s: string)
    ensures Like.EndsWith("[", Fold(d, s)) ==> Like.EndsWith("[", s)
    ensures Like.EndsWith(Sep(d), Fold(d, s)) ==> Like.EndsWith(Sep(d), s)
    ensures Fold(d, "") == ""
  {
    FoldEnd(d, s, "[");
    FoldEnd(d, s, Sep(d));
  }

  lemma FoldEnd(d: Dialect, s: string, mark: string)
    requires forall i :: 0 <= i < |mark| ==> !('a' <= mark[i] <= 'z')
    ensures Like.EndsWith(mark, Fold(d, s)) ==> Like.EndsWith(mark, s)
  {
    var t := Fold(d, s);
    if Like.EndsWith(mark, t) {
      var n := |mark| - |t|;
      forall i | 0 <= i < |s|
        ensures s[i] == t[i]
      {
        assert t[i] == mark[n..][i] == mark[n + i];
      }
      assert s == t;
    }
  }

  lemma MatchesInfix(d: Dialect, s: string, tags: seq<string>)
    requires Like.PlainTags(tags) && CleanPredicate(d, Contains(s)) && tags != []
    ensures ListMatches(d, "%" + s + "%", tags) <==> HasInfix(d, tags, s)
  {
    FoldOccurs(d, s, "[");
    FoldOccurs(d, s, "]");
    FoldOccurs(d, s, Sep(d));
    hide Fold, Like.Like, Like.ListText, Like.Plain, Like.Wild, ListMatches;
    ListMatchesFolded(d, s, tags);
    FoldedTags(d, tags, s);
    CleanHasNoQuote(d, s);
    Like.LikeTagInfix(Fold(d, s), FoldAll(d, tags), Sep(d), d != SQLite);
    if s == "" {
      assert tags[0] in tags;
    }
  }

  lemma {:induction false} FoldOccurs(d: Dialect, s: string, mark: string)
    requires forall c <- mark :: !('a' <= c <= 'z')
    ensures Like.Occurs(Fold(d, s), mark) ==> Like.Occurs(s, mark)
    ensures Fold(d, "") == ""
  {
    assert forall i :: 0 <= i < |s| ==> Fold(d, s)[i] != s[i] ==> 'a' <= Fold(d, s)[i] <= 'z';
    assert forall i :: 0 <= i < |mark| ==> mark[i] in mark;
    if mark != "" {
      FoldOccurs(d, s, mark[1..]);
    }
  }

  // ---------- exactly which literals ----------

  lemma OtherLengths(d: Dialect, tags: seq<string>, v: string)
    ensures (forall t <- tags :: |t| != |v|) ==> !IsTag(d, tags, v)
    ensures (forall t <- tags :: |t| < |v|) ==> !HasPrefix(d, tags, v)
  {
  }

  /** A tag the text test does not take as it stands is found in a list without it or any tag below it. */
  lemma TagMisses(d: Dialect, v: string) returns (tags: seq<string>)
    requires Like.Plain(v) && !TameTag(d, v)
    ensures Like.PlainTags(tags) && tags != [] && ListMatches(d, "%" + ("\"" + v + "\"") + "%", tags)
    ensures !IsTag(d, tags, v) && !HasPrefix(d, tags, v + "/")
  {
    hide ListMatches, IsTag, HasPrefix, HasSuffix, HasInfix, Like.PlainTags, Like.Wild, Like.Plain;
    if Like.Wild(v, d != SQLite) {
      tags := WildListFound(d, [Like.Q], v, [Like.Q]);
    } else {
      tags := ["a", "b"];
      SeparatorFound(d);
      assert |v| >= 1;
    }
    OtherLengths(d, tags, v + "/");
  }

  /** So is one whose children the text test does not take as they stand. */
  lemma ChildMisses(d: Dialect, v: string) returns (tags: seq<string>)
    requires Like.Plain(v) && Like.Wild(v, d != SQLite)
    ensures Like.PlainTags(tags) && ListMatches(d, "%" + ("\"" + v + "/") + "%", tags)
    ensures !IsTag(d, tags, v) && !HasPrefix(d, tags, v + "/")
  {
    hide ListMatches, IsTag, HasPrefix, HasSuffix, HasInfix, Like.PlainTags, Like.Wild, Like.Plain;
    PlainIsWild(d, v);
    tags := WildListFound(d, [Like.Q], v + "/", "");
    ChildText(v);
    OtherLengths(d, tags, v);
  }

  ghost predicate FindsChild(d: Dialect, v: string) {
    forall tags :: Like.PlainTags(tags) ==>
      (ListMatches(d, "%" + ("\"" + v + "/") + "%", tags) <==> HasPrefix(d, tags, v + "/"))
  }

  ghost predicate FindsPrefix(d: Dialect, p: string) {
    forall tags :: Like.PlainTags(tags) && tags != [] ==>
      (ListMatches(d, "%" + ("\"" + p) + "%", tags) <==> HasPrefix(d, tags, p))
  }

  ghost predicate FindsSuffix(d: Dialect, s: string) {
    forall tags :: Like.PlainTags(tags) && tags != [] ==>
      (ListMatches(d, "%" + (s + "\"") + "%", tags) <==> HasSuffix(d, tags, s))
  }

  ghost predicate FindsInfix(d: Dialect, s: string) {
    forall tags :: Like.PlainTags(tags) && tags != [] ==>
      (ListMatches(d, "%" + s + "%", tags) <==> HasInfix(d, tags, s))
  }

  lemma PlainIsWild(d: Dialect, v: string)
    requires Like.Plain(v)
    ensures CleanLiteral(v) <==> !Like.Wild(v, d != SQLite)
    ensures Like.Plain(v + "/") && (Like.Wild(v, d != SQLite) ==> Like.Wild(v + "/", d != SQLite))
    ensures Like.Q !in v
  {
  }

  lemma ChildText(v: string)
    ensures [Like.Q] + (v + "/") + "" == "\"" + v + "/"
  {
  }

  lemma MatchesChildExactly(d: Dialect, v: string)
    requires Like.Plain(v)
    ensures FindsChild(d, v) <==> CleanLiteral(v)
  {
    PlainIsWild(d, v);
    hide ListMatches, HasPrefix, HasSuffix, HasInfix, IsTag, Like.PlainTags, CleanLiteral, Like.Wild, Like.Plain;
    if CleanLiteral(v) {
      forall tags | Like.PlainTags(tags)
        ensures ListMatches(d, "%" + ("\"" + v + "/") + "%", tags) <==> HasPrefix(d, tags, v + "/")
      {
        MatchesChild(d, v, tags);
      }
    } else {
      var tags := WildListFound(d, [Like.Q], v + "/", "");
      ChildText(v);
    }
  }

  /** A piece of punctuation, and the list of two letters. */
  lemma MarkIsPlain(d: Dialect, s: string)
    requires Like.Plain(s) && !Like.Wild(s, d != SQLite)
    requires forall c <- s :: c == '[' || c == ']' || c == ',' || c == ' '
    ensures Fold(d, s) == s && FoldAll(d, ["a", "b"]) == ["a", "b"] && Like.Q !in s && Like.Separator(Sep(d))
    ensures s != "" ==> !(s <= "a") && !(s <= "b") && !Like.EndsWith("a", s) && !Like.EndsWith("b", s)
  {
    FoldMark(d, s);
    SeparatorIsPlain(d);
    hide Fold;
    if s != "" {
      assert s[0] in s && s[|s| - 1] in s;
    }
  }

  lemma Punctuation(d: Dialect)
    ensures forall c <- "[" :: c == '['
    ensures forall c <- "]" :: c == ']'
    ensures forall c <- Sep(d) :: c == ',' || c == ' '
  {
  }

  lemma PrefixChars(s: string, t: string)
    requires s <= t
    ensures forall c <- s :: c in t
  {
    assert forall i :: 0 <= i < |s| ==> s[i] == t[i];
  }

  lemma PrefixMark(d: Dialect, p: string)
    requires Like.Plain(p) && !Like.Wild(p, d != SQLite) && p != "" && (p <= "]" || p <= Sep(d))
    ensures Like.PlainTags(["a", "b"])
    ensures ListMatches(d, "%" + ("\"" + p) + "%", ["a", "b"]) && !HasPrefix(d, ["a", "b"], p)
  {
    hide Like.Wild, Like.Plain, Like.Like, Like.ListText, ListMatches, Fold, FoldAll, Like.PlainTags, Like.EndsWith,
      IsTag, HasPrefix, HasSuffix, HasInfix, Sep;
    var tags := ["a", "b"];
    PrefixChars(p, if p <= "]" then "]" else Sep(d));
    Punctuation(d);
    MarkIsPlain(d, p);
    LikeExact.TwoPlain();
    FoldQuoted(d, p);
    ListMatchesFolded(d, "\"" + p, tags);
    FoldedTags(d, tags, p);
    Like.LikeTagPrefix(p, tags, Sep(d), d != SQLite);
  }

  /** A prefix the pattern does not take as it stands is found in a list that has none of it. */
  lemma PrefixMisses(d: Dialect, x: string) returns (tags: seq<string>)
    requires Like.Plain(x) && !CleanPredicate(d, StartsWith(x))
    ensures Like.PlainTags(tags) && tags != [] && ListMatches(d, "%" + ("\"" + x) + "%", tags) && !HasPrefix(d, tags, x)
  {
    PlainIsWild(d, x);
    hide ListMatches, HasPrefix, HasSuffix, HasInfix, IsTag, Like.PlainTags, Like.Wild, Like.Plain, CleanLiteral, Fold,
      Like.Like;
    if Like.Wild(x, d != SQLite) {
      tags := WildListFound(d, [Like.Q], x, "");
      assert [Like.Q] + x + "" == "\"" + x;
    } else {
      tags := ["a", "b"];
      PrefixMark(d, x);
    }
  }

  lemma MatchesPrefixExactly(d: Dialect, x: string)
    requires Like.Plain(x)
    ensures FindsPrefix(d, x) <==> CleanPredicate(d, StartsWith(x))
  {
    hide ListMatches, HasPrefix, CleanPredicate, Like.PlainTags;
    if CleanPredicate(d, StartsWith(x)) {
      forall tags | Like.PlainTags(tags) && tags != []
        ensures ListMatches(d, "%" + ("\"" + x) + "%", tags) <==> HasPrefix(d, tags, x)
      {
        MatchesPrefix(d, x, tags);
      }
    } else {
      var tags := PrefixMisses(d, x);
    }
  }

  lemma EndsChars(s: string, t: string)
    requires Like.EndsWith(t, s)
    ensures forall c <- s :: c in t
  {
    forall i | 0 <= i < |s| ensures s[i] in t {
      assert s[i] == t[|t| - |s|..][i] == t[|t| - |s| + i];
    }
  }

  lemma SuffixMark(d: Dialect, s: string)
    requires Like.Plain(s) && !Like.Wild(s, d != SQLite)
    requires s != "" && (Like.EndsWith("[", s) || Like.EndsWith(Sep(d), s))
    ensures Like.PlainTags(["a", "b"])
    ensures ListMatches(d, "%" + (s + "\"") + "%", ["a", "b"]) && !HasSuffix(d, ["a", "b"], s)
  {
    hide Like.Wild, Like.Plain, Like.Like, Like.ListText, ListMatches, Fold, FoldAll, Like.PlainTags, Like.EndsWith,
      IsTag, HasPrefix, HasSuffix, HasInfix, Sep;
    var tags := ["a", "b"];
    EndsChars(s, if Like.EndsWith("[", s) then "[" else Sep(d));
    Punctuation(d);
    MarkIsPlain(d, s);
    LikeExact.TwoPlain();
    FoldQuoted(d, s);
    ListMatchesFolded(d, s + "\"", tags);
    FoldedTags(d, tags, s);
    Like.LikeTagSuffix(s, tags, Sep(d), d != SQLite);
  }

  /** A suffix the pattern does not take as it stands is found in a list that has none of it. */
  lemma SuffixMisses(d: Dialect, x: string) returns (tags: seq<string>)
    requires Like.Plain(x) && !CleanPredicate(d, EndsWith(x))
    ensures Like.PlainTags(tags) && tags != [] && ListMatches(d, "%" + (x + "\"") + "%", tags) && !HasSuffix(d, tags, x)
  {
    PlainIsWild(d, x);
    hide ListMatches, HasPrefix, HasSuffix, HasInfix, IsTag, Like.PlainTags, Like.Wild, Like.Plain, CleanLiteral, Fold,
      Like.Like, Like.EndsWith;
    if Like.Wild(x, d != SQLite) {
      tags := WildListFound(d, "", x, [Like.Q]);
      assert "" + x + [Like.Q] == x + "\"";
    } else {
      tags := ["a", "b"];
      SuffixMark(d, x);
    }
  }

  lemma MatchesSuffixExactly(d: Dialect, x: string)
    requires Like.Plain(x)
    ensures FindsSuffix(d, x) <==> CleanPredicate(d, EndsWith(x))
  {
    hide ListMatches, HasSuffix, CleanPredicate, Like.PlainTags;
    if CleanPredicate(d, EndsWith(x)) {
      forall tags | Like.PlainTags(tags) && tags != []
        ensures ListMatches(d, "%" + (x + "\"") + "%", tags) <==> HasSuffix(d, tags, x)
      {
        MatchesSuffix(d, x, tags);
      }
    } else {
      var tags := SuffixMisses(d, x);
    }
  }

  lemma {:induction false} OccursChars(s: string, t: string)
    requires Like.Occurs(s, t)
    ensures forall c <- s :: c in t
  {
    if s <= t {
      assert forall i :: 0 <= i < |s| ==> s[i] == t[i];
    } else {
      OccursChars(s, t[1..]);
    }
  }

  lemma InfixMark(d: Dialect, s: string)
    requires Like.Plain(s) && !Like.Wild(s, d != SQLite) && s != ""
    requires Like.Occurs(s, "[") || Like.Occurs(s, "]") || Like.Occurs(s, Sep(d))
    ensures Like.PlainTags(["a", "b"])
    ensures ListMatches(d, "%" + s + "%", ["a", "b"]) && !HasInfix(d, ["a", "b"], s)
  {
    var tags := ["a", "b"];
    SeparatorIsPlain(d);
    LikeExact.NotInLetters(s, Sep(d));
    OccursChars(s, if Like.Occurs(s, "[") then "[" else if Like.Occurs(s, "]") then "]" else Sep(d));
    hide Like.Occurs;
    MarkIsPlain(d, s);
    LikeExact.TwoPlain();
    hide Like.Wild, Like.Plain, Like.Like, Like.ListText, ListMatches, Fold, FoldAll, Like.PlainTags;
    ListMatchesFolded(d, s, tags);
    FoldedTags(d, tags, s);
    Like.LikeTagInfix(s, tags, Sep(d), d != SQLite);
  }

  /** A text the pattern does not take as it stands is found in a list that has none of it. */
  lemma InfixMisses(d: Dialect, x: string) returns (tags: seq<string>)
    requires Like.Plain(x) && !CleanPredicate(d, Contains(x))
    ensures Like.PlainTags(tags) && tags != [] && ListMatches(d, "%" + x + "%", tags) && !HasInfix(d, tags, x)
  {
    PlainIsWild(d, x);
    hide ListMatches, HasPrefix, HasSuffix, HasInfix, IsTag, Like.PlainTags, Like.Wild, Like.Plain, CleanLiteral, Fold,
      Like.Like, Like.Occurs;
    if Like.Wild(x, d != SQLite) {
      tags := WildListFound(d, "", x, "");
      assert "" + x + "" == x;
    } else {
      tags := ["a", "b"];
      InfixMark(d, x);
    }
  }

  lemma MatchesInfixExactly(d: Dialect, x: string)
    requires Like.Plain(x)
    ensures FindsInfix(d, x) <==> CleanPredicate(d, Contains(x))
  {
    hide ListMatches, HasInfix, CleanPredicate, Like.PlainTags;
    if CleanPredicate(d, Contains(x)) {
      forall tags | Like.PlainTags(tags) && tags != []
        ensures ListMatches(d, "%" + x + "%", tags) <==> HasInfix(d, tags, x)
      {
        MatchesInfix(d, x, tags);
      }
    } else {
      var tags := InfixMisses(d, x);
    }
  }
}

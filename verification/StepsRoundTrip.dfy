/** The two halves of the recipe pipeline fit together: the list HTML that
    the authoring tools' `formatExecution` writes is turned back by the
    post-processing script's `convert_html_to_json` into exactly the
    trimmed steps it was built from. */
module StepsRoundTrip {
  import opened Wrappers
  import opened Text
  import opened Seqs
  import opened ExecutionFormat
  import opened HtmlToSteps

  // ---------------------------------------------------------------------
  // A document seen as a sequence of pieces: markup (one tag) and plain
  // text (no `<`).  Each substitution deletes some tags and keeps the rest.

  datatype Piece = Markup(m: string) | Plain(t: string) {
    function Chars(): string {
      match this
      case Markup(m) => m
      case Plain(t) => t
    }
  }

  function Flatten(ps: seq<Piece>): string {
    if ps == [] then "" else ps[0].Chars() + Flatten(ps[1..])
  }

  lemma Assoc<T>(x: seq<T>, y: seq<T>, z: seq<T>)
    ensures x + (y + z) == (x + y) + z
  {
  }

  lemma FlattenCons(p: Piece, ps: seq<Piece>)
    ensures Flatten([p] + ps) == p.Chars() + Flatten(ps)
  {
    assert ([p] + ps)[1..] == ps;
  }

  lemma {:induction false} FlattenConcat(a: seq<Piece>, b: seq<Piece>)
    ensures Flatten(a + b) == Flatten(a) + Flatten(b)
  {
    if a == [] {
      assert a + b == b;
    } else {
      FlattenConcat(a[1..], b);
      assert a + b == [a[0]] + (a[1..] + b);
      FlattenCons(a[0], a[1..] + b);
      Assoc(a[0].Chars(), Flatten(a[1..]), Flatten(b));
    }
  }

  /** `a` and `b` disagree at some position both have. */
  predicate Differs(a: string, b: string)
    decreases |a|
  {
    a != [] && b != [] && (a[0] != b[0] || Differs(a[1..], b[1..]))
  }

  lemma {:induction false} DiffersNotPrefix(a: string, b: string, rest: string)
    requires Differs(a, b)
    ensures !StartsWith(a + rest, b)
    decreases |a|
  {
    var s := a + rest;
    assert s[0] == a[0];
    if a[0] == b[0] {
      DiffersNotPrefix(a[1..], b[1..], rest);
      assert s[1..] == a[1..] + rest;
      if |b| <= |s| {
        assert s[..|b|][1..] == s[1..][..|b| - 1];
        assert b[1..] != s[1..][..|b| - 1];
      }
    } else if |b| <= |s| {
      assert s[..|b|][0] == a[0];
    }
  }

  /** The tag is removed by `re.sub(open + ".*?>|" + close, "", ·)`. */
  predicate Deleted(m: string, open: string, close: string) {
    || (StartsWith(m, open) && FirstClose(m, |open|) == Some(|m| - 1))
    || (close != [] && m == close && Differs(m, open))
  }

  /** The tag is left alone by that substitution. */
  predicate Kept(m: string, open: string, close: string) {
    m != [] && m[0] == '<' && '<' !in m[1..] && Differs(m, open)
    && (close != [] ==> Differs(m, close))
  }

  predicate Fits(p: Piece, open: string, close: string) {
    match p
    case Plain(t) => '<' !in t
    case Markup(m) => Deleted(m, open, close) || Kept(m, open, close)
  }

  predicate AllFit(ps: seq<Piece>, open: string, close: string)
    decreases |ps|
  {
    ps == [] || (Fits(ps[0], open, close) && AllFit(ps[1..], open, close))
  }

  /** Both alternatives of the pattern begin with `<`. */
  predicate TagPattern(open: string, close: string) {
    open != [] && open[0] == '<' && (close != [] ==> close[0] == '<')
  }

  /** The pieces left after one substitution. */
  function Survivors(ps: seq<Piece>, open: string, close: string): seq<Piece> {
    if ps == [] then []
    else if ps[0].Markup? && Deleted(ps[0].m, open, close) then Survivors(ps[1..], open, close)
    else [ps[0]] + Survivors(ps[1..], open, close)
  }

  function SurvivorsOf(p: Piece, open: string, close: string): seq<Piece> {
    if p.Markup? && Deleted(p.m, open, close) then [] else [p]
  }

  lemma SurvivorsCons(p: Piece, ps: seq<Piece>, open: string, close: string)
    ensures Survivors([p] + ps, open, close) == SurvivorsOf(p, open, close) + Survivors(ps, open, close)
  {
    assert ([p] + ps)[0] == p;
    assert ([p] + ps)[1..] == ps;
  }

  lemma {:induction false} SurvivorsConcat(a: seq<Piece>, b: seq<Piece>, open: string, close: string)
    ensures Survivors(a + b, open, close) == Survivors(a, open, close) + Survivors(b, open, close)
  {
    if a == [] {
      assert a + b == b;
    } else {
      SurvivorsConcat(a[1..], b, open, close);
      assert a + b == [a[0]] + (a[1..] + b);
      SurvivorsCons(a[0], a[1..] + b, open, close);
      SurvivorsCons(a[0], a[1..], open, close);
      assert a == [a[0]] + a[1..];
      Assoc(SurvivorsOf(a[0], open, close), Survivors(a[1..], open, close), Survivors(b, open, close));
    }
  }

  lemma {:induction false} FirstCloseAt(s: string, k: nat, j: nat)
    requires k <= j < |s| && s[j] == '>'
    requires forall i :: k <= i < j ==> s[i] != '>' && s[i] != '\n'
    ensures FirstClose(s, k) == Some(j)
    decreases j - k
  {
    if k < j {
      FirstCloseAt(s, k + 1, j);
    }
  }

  /** A `>` found in a tag is still found when text follows the tag. */
  lemma {:induction false} FirstCloseExtend(m: string, rest: string, k: nat)
    requires k <= |m| && FirstClose(m, k).Some?
    ensures FirstClose(m + rest, k) == FirstClose(m, k)
    decreases |m| - k
  {
    assert (m + rest)[k] == m[k];
    if m[k] != '>' {
      FirstCloseExtend(m, rest, k + 1);
    }
  }

  lemma {:induction false} PlainPiece(t: string, rest: string, open: string, close: string)
    requires TagPattern(open, close) && '<' !in t
    ensures StripTags(t + rest, open, close) == t + StripTags(rest, open, close)
  {
    if t == [] {
      assert t + rest == rest;
    } else {
      var s := t + rest;
      assert s[0] == t[0];
      assert !StartsWith(s, open) by {
        if |open| <= |s| {
          assert s[..|open|][0] == s[0];
        }
      }
      assert close != [] ==> !StartsWith(s, close) by {
        if close != [] && |close| <= |s| {
          assert s[..|close|][0] == s[0];
        }
      }
      assert s[1..] == t[1..] + rest;
      assert StripTags(s, open, close) == [t[0]] + StripTags(t[1..] + rest, open, close);
      PlainPiece(t[1..], rest, open, close);
      assert t == [t[0]] + t[1..];
      Assoc([t[0]], t[1..], StripTags(rest, open, close));
    }
  }

  lemma KeptPiece(m: string, rest: string, open: string, close: string)
    requires TagPattern(open, close) && Kept(m, open, close)
    ensures StripTags(m + rest, open, close) == m + StripTags(rest, open, close)
  {
    var s := m + rest;
    DiffersNotPrefix(m, open, rest);
    if close != [] {
      DiffersNotPrefix(m, close, rest);
    }
    assert s[0] == m[0];
    assert s[1..] == m[1..] + rest;
    assert StripTags(s, open, close) == [m[0]] + StripTags(m[1..] + rest, open, close);
    PlainPiece(m[1..], rest, open, close);
    assert m == [m[0]] + m[1..];
    Assoc([m[0]], m[1..], StripTags(rest, open, close));
  }

  lemma DeletedPiece(m: string, rest: string, open: string, close: string)
    requires TagPattern(open, close) && Deleted(m, open, close)
    ensures StripTags(m + rest, open, close) == StripTags(rest, open, close)
  {
    var s := m + rest;
    if StartsWith(m, open) && FirstClose(m, |open|) == Some(|m| - 1) {
      assert s[..|open|] == m[..|open|];
      FirstCloseExtend(m, rest, |open|);
      assert s[|m|..] == rest;
    } else {
      DiffersNotPrefix(m, open, rest);
      assert s[..|close|] == close;
      assert s[|close|..] == rest;
    }
  }

  /** One substitution over a whole document: the deleted tags disappear
      and everything else is copied. */
  lemma {:induction false} StripPieces(ps: seq<Piece>, open: string, close: string)
    requires TagPattern(open, close) && AllFit(ps, open, close)
    ensures StripTags(Flatten(ps), open, close) == Flatten(Survivors(ps, open, close))
  {
    if ps != [] {
      var rest := Flatten(ps[1..]);
      StripPieces(ps[1..], open, close);
      match ps[0]
      case Plain(t) =>
        PlainPiece(t, rest, open, close);
      case Markup(m) =>
        if Deleted(m, open, close) {
          DeletedPiece(m, rest, open, close);
        } else {
          KeptPiece(m, rest, open, close);
        }
    }
  }

  // ---------------------------------------------------------------------
  // The list document at its three stages: as written, without the `<li>`
  // tags, without any tag.  The `<ul>` substitution finds nothing to delete.

  function RawItem(x: string): seq<Piece> {
    [Markup(ItemOpen)] + ParaItem(x) + [Markup(ItemClose)]
  }

  function ParaItem(x: string): seq<Piece> {
    [Markup(ParaOpen), Plain(x), Markup(ParaClose)]
  }

  function TextItem(x: string): seq<Piece> {
    [Plain(x)]
  }

  /** The items joined by the indentation. */
  function Body(xs: seq<string>, item: string -> seq<Piece>): seq<Piece>
    decreases |xs|
  {
    if xs == [] then []
    else if |xs| == 1 then item(xs[0])
    else item(xs[0]) + [Plain(Indent)] + Body(xs[1..], item)
  }

  function Framed(body: seq<Piece>): seq<Piece> {
    [Markup(ListOpen), Plain(Indent)] + body + [Plain("\n"), Markup(ListClose)]
  }

  function Bare(body: seq<Piece>): seq<Piece> {
    [Plain(Indent)] + body + [Plain("\n")]
  }

  predicate NoMarkup(xs: seq<string>) {
    forall k :: 0 <= k < |xs| ==> '<' !in xs[k]
  }

  lemma {:induction false} AllFitConcat(a: seq<Piece>, b: seq<Piece>, open: string, close: string)
    requires AllFit(a, open, close) && AllFit(b, open, close)
    ensures AllFit(a + b, open, close)
  {
    if a == [] {
      assert a + b == b;
    } else {
      AllFitConcat(a[1..], b, open, close);
      assert (a + b)[0] == a[0];
      assert (a + b)[1..] == a[1..] + b;
    }
  }

  /** One piece in front of a passing list. */
  lemma PassCons(p: Piece, ps: seq<Piece>, rs: seq<Piece>, open: string, close: string)
    requires Fits(p, open, close) && AllFit(ps, open, close) && Survivors(ps, open, close) == rs
    ensures AllFit([p] + ps, open, close)
    ensures Survivors([p] + ps, open, close) == SurvivorsOf(p, open, close) + rs
  {
    SurvivorsCons(p, ps, open, close);
    assert ([p] + ps)[0] == p;
    assert ([p] + ps)[1..] == ps;
  }

  /** A tag the substitution leaves alone, shown by the positions where it
      differs from each alternative. */
  lemma KeepsTag(m: string, open: string, close: string, i: nat, j: nat)
    requires m != [] && m[0] == '<' && '<' !in m[1..]
    requires i < |m| && i < |open| && m[i] != open[i]
    requires close != [] ==> j < |m| && j < |close| && m[j] != close[j]
    ensures Fits(Markup(m), open, close) && SurvivorsOf(Markup(m), open, close) == [Markup(m)]
  {
    DiffersAt(m, open, i);
    DiffersNotPrefix(m, open, []);
    assert m + [] == m;
    if close != [] {
      DiffersAt(m, close, j);
      DiffersNotPrefix(m, close, []);
    }
  }

  lemma {:induction false} DiffersAt(a: string, b: string, i: nat)
    requires i < |a| && i < |b| && a[i] != b[i]
    ensures Differs(a, b)
    decreases i
  {
    if i > 0 && a[0] == b[0] {
      DiffersAt(a[1..], b[1..], i - 1);
    }
  }

  lemma DropsTag(m: string, open: string, close: string)
    requires Deleted(m, open, close)
    ensures Fits(Markup(m), open, close) && SurvivorsOf(Markup(m), open, close) == []
  {
  }

  lemma KeepsText(t: string, open: string, close: string)
    requires '<' !in t
    ensures Fits(Plain(t), open, close) && SurvivorsOf(Plain(t), open, close) == [Plain(t)]
  {
  }

  lemma Chain3(p1: Piece, p2: Piece, p3: Piece, open: string, close: string)
    requires Fits(p1, open, close) && Fits(p2, open, close) && Fits(p3, open, close)
    ensures AllFit([p1, p2, p3], open, close)
    ensures Survivors([p1, p2, p3], open, close)
         == SurvivorsOf(p1, open, close) + SurvivorsOf(p2, open, close) + SurvivorsOf(p3, open, close)
  {
    Pair(p2, p3, open, close);
    PassCons(p1, [p2, p3], SurvivorsOf(p2, open, close) + SurvivorsOf(p3, open, close), open, close);
    ConsPair(p1, p2, p3);
    Assoc(SurvivorsOf(p1, open, close), SurvivorsOf(p2, open, close), SurvivorsOf(p3, open, close));
  }

  lemma ConsPair<T>(x: T, y: T, z: T)
    ensures [x] + [y, z] == [x, y, z]
  {
  }

  /** A passing body between passing pieces. */
  lemma Wrap(pre: seq<Piece>, body: seq<Piece>, post: seq<Piece>, open: string, close: string)
    requires AllFit(pre, open, close) && AllFit(body, open, close) && AllFit(post, open, close)
    ensures AllFit(pre + body + post, open, close)
    ensures Survivors(pre + body + post, open, close)
         == Survivors(pre, open, close) + Survivors(body, open, close) + Survivors(post, open, close)
  {
    AllFitConcat(pre, body, open, close);
    AllFitConcat(pre + body, post, open, close);
    SurvivorsConcat(pre, body, open, close);
    SurvivorsConcat(pre + body, post, open, close);
  }

  lemma Single(p: Piece, open: string, close: string)
    requires Fits(p, open, close)
    ensures AllFit([p], open, close) && Survivors([p], open, close) == SurvivorsOf(p, open, close)
  {
    PassCons(p, [], [], open, close);
    assert [p] + [] == [p];
  }

  /** How each substitution treats each tag of the list. */
  lemma ItemTagsUnderUl()
    ensures Fits(Markup(ItemOpen), "<ul", "</ul>") && SurvivorsOf(Markup(ItemOpen), "<ul", "</ul>") == [Markup(ItemOpen)]
    ensures Fits(Markup(ItemClose), "<ul", "</ul>") && SurvivorsOf(Markup(ItemClose), "<ul", "</ul>") == [Markup(ItemClose)]
  {
    KeepsTag(ItemOpen, "<ul", "</ul>", 1, 1);
    KeepsTag(ItemClose, "<ul", "</ul>", 1, 2);
  }

  lemma ParaTagsUnderUl()
    ensures Fits(Markup(ParaOpen), "<ul", "</ul>") && SurvivorsOf(Markup(ParaOpen), "<ul", "</ul>") == [Markup(ParaOpen)]
    ensures Fits(Markup(ParaClose), "<ul", "</ul>") && SurvivorsOf(Markup(ParaClose), "<ul", "</ul>") == [Markup(ParaClose)]
  {
    KeepsTag(ParaOpen, "<ul", "</ul>", 1, 1);
    KeepsTag(ParaClose, "<ul", "</ul>", 1, 2);
  }

  lemma TagsUnderLi()
    ensures Fits(Markup(ItemOpen), "<li", "</li>") && SurvivorsOf(Markup(ItemOpen), "<li", "</li>") == []
    ensures Fits(Markup(ParaOpen), "<li", "</li>") && SurvivorsOf(Markup(ParaOpen), "<li", "</li>") == [Markup(ParaOpen)]
    ensures Fits(Markup(ParaClose), "<li", "</li>") && SurvivorsOf(Markup(ParaClose), "<li", "</li>") == [Markup(ParaClose)]
    ensures Fits(Markup(ItemClose), "<li", "</li>") && SurvivorsOf(Markup(ItemClose), "<li", "</li>") == []
  {
    assert ItemOpen[..3] == "<li";
    DropsTag(ItemOpen, "<li", "</li>");
    KeepsTag(ParaOpen, "<li", "</li>", 1, 1);
    KeepsTag(ParaClose, "<li", "</li>", 1, 2);
    DiffersAt(ItemClose, "<li", 1);
    DropsTag(ItemClose, "<li", "</li>");
  }

  lemma TagsUnderAny()
    ensures Fits(Markup(ParaOpen), "<", "") && SurvivorsOf(Markup(ParaOpen), "<", "") == []
    ensures Fits(Markup(ParaClose), "<", "") && SurvivorsOf(Markup(ParaClose), "<", "") == []
  {
    assert ParaOpen[..1] == "<";
    assert ParaClose[..1] == "<";
    FirstCloseAt(ParaOpen, 1, |ParaOpen| - 1);
    FirstCloseAt(ParaClose, 1, |ParaClose| - 1);
    DropsTag(ParaOpen, "<", "");
    DropsTag(ParaClose, "<", "");
  }

  lemma ItemUl(x: string)
    requires '<' !in x
    ensures AllFit(RawItem(x), "<ul", "</ul>")
    ensures Survivors(RawItem(x), "<ul", "</ul>") == RawItem(x)
  {
    var o, c := "<ul", "</ul>";
    ItemTagsUnderUl();
    ParaTagsUnderUl();
    KeepsText(x, o, c);
    Chain3(Markup(ParaOpen), Plain(x), Markup(ParaClose), o, c);
    Single(Markup(ItemOpen), o, c);
    Single(Markup(ItemClose), o, c);
    Wrap([Markup(ItemOpen)], ParaItem(x), [Markup(ItemClose)], o, c);
  }

  lemma ItemLi(x: string)
    requires '<' !in x
    ensures AllFit(RawItem(x), "<li", "</li>")
    ensures Survivors(RawItem(x), "<li", "</li>") == ParaItem(x)
  {
    var o, c := "<li", "</li>";
    TagsUnderLi();
    KeepsText(x, o, c);
    Chain3(Markup(ParaOpen), Plain(x), Markup(ParaClose), o, c);
    Single(Markup(ItemOpen), o, c);
    Single(Markup(ItemClose), o, c);
    Wrap([Markup(ItemOpen)], ParaItem(x), [Markup(ItemClose)], o, c);
  }

  lemma ItemAll(x: string)
    requires '<' !in x
    ensures AllFit(ParaItem(x), "<", "")
    ensures Survivors(ParaItem(x), "<", "") == TextItem(x)
  {
    TagsUnderAny();
    KeepsText(x, "<", "");
    Chain3(Markup(ParaOpen), Plain(x), Markup(ParaClose), "<", "");
  }

  /** A substitution that turns every item of one stage into the item of
      the next turns the whole list body likewise. */
  lemma {:induction false} BodyPass(xs: seq<string>, item1: string -> seq<Piece>, item2: string -> seq<Piece>,
                                    open: string, close: string)
    requires NoMarkup(xs)
    requires forall x :: '<' !in x ==> AllFit(item1(x), open, close)
    requires forall x :: '<' !in x ==> Survivors(item1(x), open, close) == item2(x)
    ensures AllFit(Body(xs, item1), open, close)
    ensures Survivors(Body(xs, item1), open, close) == Body(xs, item2)
    decreases |xs|
  {
    if |xs| > 1 {
      var a := item1(xs[0]);
      var b := Body(xs[1..], item1);
      assert NoMarkup(xs[1..]) by {
        forall k | 0 <= k < |xs[1..]| ensures '<' !in xs[1..][k] {
          assert xs[1..][k] == xs[k + 1];
        }
      }
      BodyPass(xs[1..], item1, item2, open, close);
      BodyStep(a, b, item2(xs[0]), Body(xs[1..], item2), open, close);
      assert Body(xs, item1) == a + [Plain(Indent)] + b;
      assert Body(xs, item2) == item2(xs[0]) + [Plain(Indent)] + Body(xs[1..], item2);
    }
  }

  /** One item, the indentation and the rest of the body. */
  lemma BodyStep(a: seq<Piece>, b: seq<Piece>, ra: seq<Piece>, rb: seq<Piece>, open: string, close: string)
    requires AllFit(a, open, close) && Survivors(a, open, close) == ra
    requires AllFit(b, open, close) && Survivors(b, open, close) == rb
    ensures AllFit(a + [Plain(Indent)] + b, open, close)
    ensures Survivors(a + [Plain(Indent)] + b, open, close) == ra + [Plain(Indent)] + rb
  {
    KeepsText(Indent, open, close);
    PassCons(Plain(Indent), b, rb, open, close);
    AllFitConcat(a, [Plain(Indent)] + b, open, close);
    SurvivorsConcat(a, [Plain(Indent)] + b, open, close);
    Assoc(a, [Plain(Indent)], b);
    Assoc(ra, [Plain(Indent)], rb);
  }

  lemma Pair(p: Piece, q: Piece, open: string, close: string)
    requires Fits(p, open, close) && Fits(q, open, close)
    ensures AllFit([p, q], open, close)
    ensures Survivors([p, q], open, close) == SurvivorsOf(p, open, close) + SurvivorsOf(q, open, close)
  {
    Single(q, open, close);
    PassCons(p, [q], SurvivorsOf(q, open, close), open, close);
    assert [p, q] == [p] + [q];
  }

  lemma ListTags()
    ensures Fits(Markup(ListOpen), "<ul", "</ul>") && SurvivorsOf(Markup(ListOpen), "<ul", "</ul>") == [Markup(ListOpen)]
    ensures Fits(Markup(ListClose), "<ul", "</ul>") && SurvivorsOf(Markup(ListClose), "<ul", "</ul>") == [Markup(ListClose)]
    ensures Fits(Markup(ListOpen), "<li", "</li>") && SurvivorsOf(Markup(ListOpen), "<li", "</li>") == [Markup(ListOpen)]
    ensures Fits(Markup(ListClose), "<li", "</li>") && SurvivorsOf(Markup(ListClose), "<li", "</li>") == [Markup(ListClose)]
  {
    KeepsTag(ListOpen, "<ul", "</ul>", 1, 1);
    KeepsTag(ListClose, "<ul", "</ul>", 1, 2);
    KeepsTag(ListOpen, "<li", "</li>", 1, 1);
    KeepsTag(ListClose, "<li", "</li>", 1, 2);
  }

  lemma ListTagsGone()
    ensures Fits(Markup(ListOpen), "<", "") && SurvivorsOf(Markup(ListOpen), "<", "") == []
    ensures Fits(Markup(ListClose), "<", "") && SurvivorsOf(Markup(ListClose), "<", "") == []
  {
    assert ListOpen[..1] == "<";
    assert ListClose[..1] == "<";
    FirstCloseAt(ListOpen, 1, |ListOpen| - 1);
    FirstCloseAt(ListClose, 1, |ListClose| - 1);
    DropsTag(ListOpen, "<", "");
    DropsTag(ListClose, "<", "");
  }

  /** The list frame around a body that passes: kept by the first two
      substitutions, deleted by the last. */
  lemma FramePass(body: seq<Piece>, rbody: seq<Piece>, open: string, close: string)
    requires TagPattern(open, close) && AllFit(body, open, close) && Survivors(body, open, close) == rbody
    requires Fits(Markup(ListOpen), open, close) && Fits(Markup(ListClose), open, close)
    ensures StripTags(Flatten(Framed(body)), open, close)
         == Flatten(SurvivorsOf(Markup(ListOpen), open, close) + [Plain(Indent)] + rbody
                    + ([Plain("\n")] + SurvivorsOf(Markup(ListClose), open, close)))
  {
    KeepsText(Indent, open, close);
    KeepsText("\n", open, close);
    Pair(Markup(ListOpen), Plain(Indent), open, close);
    Pair(Plain("\n"), Markup(ListClose), open, close);
    Wrap([Markup(ListOpen), Plain(Indent)], body, [Plain("\n"), Markup(ListClose)], open, close);
    StripPieces(Framed(body), open, close);
  }

  lemma FrameKept(body: seq<Piece>, rbody: seq<Piece>, open: string, close: string)
    requires TagPattern(open, close) && AllFit(body, open, close) && Survivors(body, open, close) == rbody
    requires Fits(Markup(ListOpen), open, close) && SurvivorsOf(Markup(ListOpen), open, close) == [Markup(ListOpen)]
    requires Fits(Markup(ListClose), open, close) && SurvivorsOf(Markup(ListClose), open, close) == [Markup(ListClose)]
    ensures StripTags(Flatten(Framed(body)), open, close) == Flatten(Framed(rbody))
  {
    FramePass(body, rbody, open, close);
    FramedPieces(rbody);
  }

  lemma FramedPieces(body: seq<Piece>)
    ensures Framed(body) == [Markup(ListOpen)] + [Plain(Indent)] + body + ([Plain("\n")] + [Markup(ListClose)])
  {
  }

  lemma FrameDropped(body: seq<Piece>, rbody: seq<Piece>, open: string, close: string)
    requires TagPattern(open, close) && AllFit(body, open, close) && Survivors(body, open, close) == rbody
    requires Fits(Markup(ListOpen), open, close) && SurvivorsOf(Markup(ListOpen), open, close) == []
    requires Fits(Markup(ListClose), open, close) && SurvivorsOf(Markup(ListClose), open, close) == []
    ensures StripTags(Flatten(Framed(body)), open, close) == Flatten(Bare(rbody))
  {
    FramePass(body, rbody, open, close);
    BarePieces(rbody);
  }

  lemma BarePieces(body: seq<Piece>)
    ensures Bare(body) == [] + [Plain(Indent)] + body + ([Plain("\n")] + [])
  {
  }

  lemma DocUl(xs: seq<string>)
    requires NoMarkup(xs)
    ensures StripTags(Flatten(Framed(Body(xs, RawItem))), "<ul", "</ul>") == Flatten(Framed(Body(xs, RawItem)))
  {
    forall x | '<' !in x
      ensures AllFit(RawItem(x), "<ul", "</ul>") && Survivors(RawItem(x), "<ul", "</ul>") == RawItem(x)
    {
      ItemUl(x);
    }
    BodyPass(xs, RawItem, RawItem, "<ul", "</ul>");
    ListTags();
    FrameKept(Body(xs, RawItem), Body(xs, RawItem), "<ul", "</ul>");
  }

  lemma DocLi(xs: seq<string>)
    requires NoMarkup(xs)
    ensures StripTags(Flatten(Framed(Body(xs, RawItem))), "<li", "</li>") == Flatten(Framed(Body(xs, ParaItem)))
  {
    forall x | '<' !in x
      ensures AllFit(RawItem(x), "<li", "</li>") && Survivors(RawItem(x), "<li", "</li>") == ParaItem(x)
    {
      ItemLi(x);
    }
    BodyPass(xs, RawItem, ParaItem, "<li", "</li>");
    ListTags();
    FrameKept(Body(xs, RawItem), Body(xs, ParaItem), "<li", "</li>");
  }

  lemma DocAll(xs: seq<string>)
    requires NoMarkup(xs)
    ensures StripTags(Flatten(Framed(Body(xs, ParaItem))), "<", "") == Flatten(Bare(Body(xs, TextItem)))
  {
    forall x | '<' !in x
      ensures AllFit(ParaItem(x), "<", "") && Survivors(ParaItem(x), "<", "") == TextItem(x)
    {
      ItemAll(x);
    }
    BodyPass(xs, ParaItem, TextItem, "<", "");
    ListTagsGone();
    FrameDropped(Body(xs, ParaItem), Body(xs, TextItem), "<", "");
  }

  // ---------------------------------------------------------------------
  // From pieces back to strings.

  lemma FlattenSingle(p: Piece)
    ensures Flatten([p]) == p.Chars()
  {
    FlattenCons(p, []);
    assert [p] + [] == [p];
  }

  lemma Flatten3(p: Piece, q: Piece, r: Piece)
    ensures Flatten([p, q, r]) == p.Chars() + q.Chars() + r.Chars()
  {
    FlattenSingle(r);
    FlattenCons(q, [r]);
    assert [q] + [r] == [q, r];
    FlattenCons(p, [q, r]);
    assert [p] + [q, r] == [p, q, r];
    Assoc(p.Chars(), q.Chars(), r.Chars());
  }

  lemma FlattenRaw(x: string)
    ensures Flatten(RawItem(x)) == Item(x)
  {
    var para := ParaItem(x);
    Flatten3(Markup(ParaOpen), Plain(x), Markup(ParaClose));
    FlattenSingle(Markup(ItemOpen));
    FlattenSingle(Markup(ItemClose));
    FlattenConcat([Markup(ItemOpen)], para);
    FlattenConcat([Markup(ItemOpen)] + para, [Markup(ItemClose)]);
    Assoc(ItemOpen, ParaOpen + x, ParaClose);
    Assoc(ItemOpen, ParaOpen, x);
  }

  lemma {:induction false} FlattenRawBody(xs: seq<string>)
    ensures Flatten(Body(xs, RawItem)) == Join(Items(xs), Indent)
    decreases |xs|
  {
    if |xs| == 1 {
      FlattenRaw(xs[0]);
    } else if |xs| > 1 {
      var a := RawItem(xs[0]);
      var b := Body(xs[1..], RawItem);
      FlattenRawBody(xs[1..]);
      FlattenRaw(xs[0]);
      FlattenSingle(Plain(Indent));
      FlattenConcat(a, [Plain(Indent)]);
      FlattenConcat(a + [Plain(Indent)], b);
      assert Items(xs)[1..] == Items(xs[1..]);
    }
  }

  lemma {:induction false} FlattenTextBody(xs: seq<string>)
    ensures Flatten(Body(xs, TextItem)) == Join(xs, Indent)
    decreases |xs|
  {
    if |xs| == 1 {
      FlattenSingle(Plain(xs[0]));
    } else if |xs| > 1 {
      var a := TextItem(xs[0]);
      var b := Body(xs[1..], TextItem);
      FlattenTextBody(xs[1..]);
      FlattenSingle(Plain(xs[0]));
      FlattenSingle(Plain(Indent));
      FlattenConcat(a, [Plain(Indent)]);
      FlattenConcat(a + [Plain(Indent)], b);
    }
  }

  lemma FlattenFramed(body: seq<Piece>)
    ensures Flatten(Framed(body)) == ListOpen + Indent + Flatten(body) + "\n" + ListClose
  {
    var pre := [Markup(ListOpen), Plain(Indent)];
    var post := [Plain("\n"), Markup(ListClose)];
    Flatten2(Markup(ListOpen), Plain(Indent));
    Flatten2(Plain("\n"), Markup(ListClose));
    FlattenConcat(pre, body);
    FlattenConcat(pre + body, post);
    Assoc(ListOpen + Indent + Flatten(body), "\n", ListClose);
  }

  lemma Flatten2(p: Piece, q: Piece)
    ensures Flatten([p, q]) == p.Chars() + q.Chars()
  {
    FlattenSingle(q);
    FlattenCons(p, [q]);
    assert [p] + [q] == [p, q];
  }

  lemma FlattenBare(body: seq<Piece>)
    ensures Flatten(Bare(body)) == Indent + Flatten(body) + "\n"
  {
    FlattenSingle(Plain(Indent));
    FlattenSingle(Plain("\n"));
    FlattenConcat([Plain(Indent)], body);
    FlattenConcat([Plain(Indent)] + body, [Plain("\n")]);
  }

  // ---------------------------------------------------------------------
  // From the tag-free text to the steps.

  function Padded(xs: seq<string>): (r: seq<string>)
    ensures |r| == |xs|
    ensures forall k :: 0 <= k < |xs| ==> r[k] == "  " + xs[k]
  {
    if xs == [] then [] else ["  " + xs[0]] + Padded(xs[1..])
  }

  lemma Regroup(b: string, x: string, j: string, n: string)
    ensures b + (x + (n + b) + j) + n == (b + x) + n + (b + j + n)
  {
  }

  lemma {:induction false} TailLines(xs: seq<string>)
    requires xs != [] && forall k :: 0 <= k < |xs| ==> '\n' !in xs[k]
    ensures Split("  " + Join(xs, Indent) + "\n", '\n') == Padded(xs) + [""]
    decreases |xs|
  {
    var x := xs[0];
    assert '\n' !in "  ";
    assert '\n' !in "  " + x;
    if |xs| == 1 {
      assert "  " + Join(xs, Indent) + "\n" == ("  " + x) + ['\n'] + "";
      SplitAfter("  " + x, '\n', "");
      SplitNoSeparator("", '\n');
    } else {
      assert forall k :: 0 <= k < |xs[1..]| ==> '\n' !in xs[1..][k] by {
        forall k | 0 <= k < |xs[1..]| ensures '\n' !in xs[1..][k] {
          assert xs[1..][k] == xs[k + 1];
        }
      }
      TailLines(xs[1..]);
      var j := Join(xs[1..], Indent);
      assert Join(xs, Indent) == x + Indent + j;
      assert Indent == "\n" + "  ";
      Regroup("  ", x, j, "\n");
      SplitAfter("  " + x, '\n', "  " + j + "\n");
      assert Padded(xs) == ["  " + x] + Padded(xs[1..]);
    }
  }

  /** A leading newline contributes an empty first line. */
  lemma LeadingNewline(j: string)
    ensures Split(Indent + j + "\n", '\n') == [""] + Split("  " + j + "\n", '\n')
  {
    var rest := "  " + j + "\n";
    assert Indent == "\n" + "  ";
    Assoc("\n", "  ", j);
    Assoc("\n", "  " + j, "\n");
    assert Indent + j + "\n" == "" + ['\n'] + rest;
    SplitAfter("", '\n', rest);
  }

  lemma LoneIndent()
    ensures Split("  " + "" + "\n", '\n') == ["  ", ""]
  {
    assert "  " + "" + "\n" == "  " + ['\n'] + "";
    SplitAfter("  ", '\n', "");
    SplitNoSeparator("", '\n');
  }

  /** The lines of the tag-free list: an empty first and last line around
      one indented line per step (a lone indentation when there is none). */
  lemma Lines(xs: seq<string>)
    requires forall k :: 0 <= k < |xs| ==> '\n' !in xs[k]
    ensures Split(Indent + Join(xs, Indent) + "\n", '\n')
         == [""] + (if xs == [] then ["  "] else Padded(xs)) + [""]
  {
    var j := Join(xs, Indent);
    var mid: seq<string> := if xs == [] then ["  "] else Padded(xs);
    LeadingNewline(j);
    if xs == [] {
      LoneIndent();
    } else {
      TailLines(xs);
    }
    assert Split("  " + j + "\n", '\n') == mid + [""];
    Assoc([""], mid, [""]);
  }

  /** What a list item holds: a non-empty, single-line text without `<`
      whose first and last characters are not whitespace to Python. */
  predicate StepText(x: string) {
    && x != [] && '<' !in x && '\n' !in x
    && !IsPySpace(x[0]) && !IsPySpace(x[|x| - 1])
  }

  lemma PaddedStrip(x: string)
    requires StepText(x)
    ensures HasText("  " + x) && PyStrip("  " + x) == x
  {
    TrimAfterPadding("  ", x, IsPySpace);
  }

  lemma KeptSteps(xs: seq<string>)
    requires forall k :: 0 <= k < |xs| ==> StepText(xs[k])
    ensures StripEach(Filter([""] + (if xs == [] then ["  "] else Padded(xs)) + [""], HasText)) == xs
  {
    var mid := if xs == [] then ["  "] else Padded(xs);
    FilterConcat([""] + mid, [""], HasText);
    FilterConcat([""], mid, HasText);
    assert !HasText("");
    assert Filter([""], HasText) == [];
    if xs == [] {
      assert !HasText("  ");
      assert Filter(["  "], HasText) == [];
    } else {
      PaddedKept(xs);
    }
    assert [] + Filter(mid, HasText) + [] == Filter(mid, HasText);
  }

  /** Every padded step has text and strips back to the step. */
  lemma PaddedKept(xs: seq<string>)
    requires forall k :: 0 <= k < |xs| ==> StepText(xs[k])
    ensures StripEach(Filter(Padded(xs), HasText)) == xs
  {
    var mid := Padded(xs);
    forall k | 0 <= k < |mid| ensures HasText(mid[k]) {
      PaddedStrip(xs[k]);
    }
    FilterKeepsAll(mid, HasText);
    var r := StripEach(mid);
    forall k | 0 <= k < |xs| ensures r[k] == xs[k] {
      PaddedStrip(xs[k]);
    }
  }

  /** The trimmed steps of text without `<` in which JavaScript and Python
      agree on whitespace are step texts. */
  lemma StepTexts(text: string)
    requires '<' !in text
    requires forall k :: 0 <= k < |text| ==> SameSpaceness(text[k])
    ensures forall k :: 0 <= k < |TrimEach(Steps(text))| ==> StepText(TrimEach(Steps(text))[k])
  {
    var lines := Split(text, '\n');
    var steps := Steps(text);
    SplitChars(text, '\n');
    forall k | 0 <= k < |steps| ensures StepText(JsTrim(steps[k])) {
      var step := steps[k];
      assert step in lines;
      var n :| 0 <= n < |lines| && lines[n] == step;
      assert forall i :: 0 <= i < |step| ==> step[i] in text;
      TrimmedStepText(text, step);
    }
  }

  /** A step cut from such a text, trimmed, is a step text. */
  lemma TrimmedStepText(text: string, step: string)
    requires '<' !in text
    requires forall k :: 0 <= k < |text| ==> SameSpaceness(text[k])
    requires forall i :: 0 <= i < |step| ==> step[i] in text
    requires '\n' !in step && IsStep(step)
    ensures StepText(JsTrim(step))
  {
    var x := JsTrim(step);
    forall i | 0 <= i < |x| ensures x[i] in text {
      var j :| 0 <= j < |step| && step[j] == x[i];
    }
    assert SameSpaceness(x[0]) && SameSpaceness(x[|x| - 1]);
  }

  /** The round trip: for step text without `<` in which JavaScript's
      `trim` and Python's `strip` agree on whitespace,
      `convert_html_to_json(formatExecution(text))` gives back exactly the
      trimmed non-blank lines of `text`, in order. */
  lemma FormatThenConvert(text: string)
    requires '<' !in text
    requires forall k :: 0 <= k < |text| ==> SameSpaceness(text[k])
    ensures ConvertHtmlToJson(FormatExecution(text)) == TrimEach(Steps(text))
  {
    var xs := TrimEach(Steps(text));
    StepTexts(text);
    assert NoMarkup(xs);
    var html := FormatExecution(text);
    FlattenRawBody(xs);
    FlattenFramed(Body(xs, RawItem));
    assert html == Flatten(Framed(Body(xs, RawItem)));
    DocUl(xs);
    DocLi(xs);
    DocAll(xs);
    FlattenBare(Body(xs, TextItem));
    FlattenTextBody(xs);
    assert RemoveTags(html) == Indent + Join(xs, Indent) + "\n";
    Lines(xs);
    KeptSteps(xs);
  }
}

/** The recipe post-processing script: `convert_html_to_json` reduces the
    list HTML of an `Execution` field to its plain-text steps with three
    Python regular-expression substitutions, and the main loop applies it to
    the `ExecutionGR` and `ExecutionEN` fields of every recipe. */
module HtmlToSteps {
  import opened Wrappers
  import opened Text
  import opened Seqs

  /** Where a lazy `.*?>` started at position `k` stops: the first `>` on
      the same line (the regex dot never matches a newline), or `None` when
      the line ends first. */
  function FirstClose(s: string, k: nat): (j: Option<nat>)
    requires k <= |s|
    decreases |s| - k
    ensures j.Some? ==> k <= j.value < |s| && s[j.value] == '>'
    ensures j.Some? ==> forall m :: k <= m < j.value ==> s[m] != '>' && s[m] != '\n'
  {
    if k == |s| || s[k] == '\n' then None
    else if s[k] == '>' then Some(k)
    else FirstClose(s, k + 1)
  }

  /** `None` means: no `>` on the rest of the line. */
  lemma {:induction false} NoCloseOnLine(s: string, k: nat, e: nat)
    requires k <= e <= |s| && FirstClose(s, k).None?
    requires '\n' !in s[k..e]
    ensures forall m :: k <= m < e ==> s[m] != '>'
    decreases e - k
  {
    if k < e {
      assert s[k] == s[k..e][0];
      assert s[k + 1..e] == s[k..e][1..];
      NoCloseOnLine(s, k + 1, e);
    }
  }

  /** Searching in a suffix finds the same `>`, shifted. */
  lemma {:induction false} FirstCloseSuffix(u: string, a: nat, k: nat)
    requires a + k <= |u|
    ensures FirstClose(u[a..], k)
         == if FirstClose(u, a + k).Some? then Some(FirstClose(u, a + k).value - a) else None
    decreases |u| - (a + k)
  {
    if a + k < |u| && u[a + k] != '\n' && u[a + k] != '>' {
      FirstCloseSuffix(u, a, k + 1);
    }
  }

  /** `re.sub(open + ".*?>|" + close, "", s)`.  Scanning from the left, an
      occurrence of `open` together with everything up to the first `>` on
      its line is deleted; failing that, an occurrence of `close` is; any
      other character is kept.  An empty `close` stands for a pattern with
      the first alternative only. */
  function StripTags(s: string, open: string, close: string): (r: string)
    requires open != []
    decreases |s|
    ensures |r| <= |s|
  {
    if s == [] then []
    else if StartsWith(s, open) && FirstClose(s, |open|).Some? then
      StripTags(s[FirstClose(s, |open|).value + 1..], open, close)
    else if close != [] && StartsWith(s, close) then
      StripTags(s[|close|..], open, close)
    else
      [s[0]] + StripTags(s[1..], open, close)
  }

  /** The three substitutions: `<ul…>`/`</ul>`, then `<li…>`/`</li>`, then
      every remaining `<…>`. */
  function RemoveTags(html: string): string {
    StripTags(StripTags(StripTags(html, "<ul", "</ul>"), "<li", "</li>"), "<", "")
  }

  /** `step.strip()` is truthy. */
  predicate HasText(line: string) {
    PyStrip(line) != ""
  }

  function StripEach(lines: seq<string>): (r: seq<string>)
    ensures |r| == |lines|
    ensures forall k :: 0 <= k < |lines| ==> r[k] == PyStrip(lines[k])
  {
    if lines == [] then [] else [PyStrip(lines[0])] + StripEach(lines[1..])
  }

  /** The lines with text once the tags are gone, in their original
      order: every such line is kept as often as it occurs and no blank
      line survives. */
  function TextLines(html: string): (kept: seq<string>)
    ensures IsSubsequence(kept, Split(RemoveTags(html), '\n'))
    ensures forall line :: multiset(kept)[line]
                        == if HasText(line) then multiset(Split(RemoveTags(html), '\n'))[line] else 0
  {
    FilterIsSelection(Split(RemoveTags(html), '\n'), HasText);
    Filter(Split(RemoveTags(html), '\n'), HasText)
  }

  /** `convert_html_to_json`: the lines with text left once the tags are
      gone, each stripped.  Every step is non-empty, has no surrounding
      whitespace and lies within one line. */
  function ConvertHtmlToJson(html: string): (steps: seq<string>)
    ensures |steps| == |TextLines(html)|
    ensures forall k :: 0 <= k < |steps| ==> steps[k] == PyStrip(TextLines(html)[k])
    ensures forall k :: 0 <= k < |steps| ==> steps[k] != "" && PyStrip(steps[k]) == steps[k]
    ensures forall k :: 0 <= k < |steps| ==> '\n' !in steps[k]
  {
    var lines := Split(RemoveTags(html), '\n');
    var steps := StripEach(TextLines(html));
    StepsClean(lines, steps);
    steps
  }

  /** The stripped non-blank lines are non-empty, stripped and, taken from
      single lines, free of line breaks. */
  lemma StepsClean(lines: seq<string>, steps: seq<string>)
    requires forall k :: 0 <= k < |lines| ==> '\n' !in lines[k]
    requires steps == StripEach(Filter(lines, HasText))
    ensures forall k :: 0 <= k < |steps| ==> steps[k] != "" && PyStrip(steps[k]) == steps[k]
    ensures forall k :: 0 <= k < |steps| ==> '\n' !in steps[k]
  {
    var kept := Filter(lines, HasText);
    forall k | 0 <= k < |steps|
      ensures steps[k] != "" && PyStrip(steps[k]) == steps[k] && '\n' !in steps[k]
    {
      assert kept[k] in lines;
      assert HasText(kept[k]);
      StripClean(kept[k]);
    }
  }

  /** A line with text, stripped, is a non-empty stripped line. */
  lemma StripClean(line: string)
    requires '\n' !in line && HasText(line)
    ensures PyStrip(line) != "" && PyStrip(PyStrip(line)) == PyStrip(line) && '\n' !in PyStrip(line)
  {
    var s := PyStrip(line);
    TrimTrimmed(s, IsPySpace);
    var i, j := TrimIsSlice(line, IsPySpace);
    assert s == line[i..j];
  }

  // ---------------------------------------------------------------------
  // No tag survives: after the last substitution no step holds a `<`
  // followed later by a `>`.

  predicate TagFree(t: string) {
    forall i, j :: 0 <= i < j < |t| && t[i] == '<' ==> t[j] != '>'
  }

  /** Every `<` left in `u` has no `>` after it on its line. */
  predicate Safe(u: string) {
    forall a :: 0 <= a < |u| && u[a] == '<' ==> FirstClose(u, a + 1).None?
  }

  /** A first line without `>` keeps none when the tags are removed. */
  lemma {:induction false} NoCloseSurvives(v: string)
    requires FirstClose(v, 0).None?
    ensures FirstClose(StripTags(v, "<", ""), 0).None?
    decreases |v|
  {
    if v != [] && !(v[0] == '<' && FirstClose(v, 1).Some?) && v[0] != '\n' {
      var r := StripTags(v, "<", "");
      assert r == [v[0]] + StripTags(v[1..], "<", "");
      FirstCloseSuffix(v, 1, 0);
      NoCloseSurvives(v[1..]);
      FirstCloseSuffix(r, 1, 0);
      assert r[1..] == StripTags(v[1..], "<", "");
    }
  }

  lemma {:induction false} StripLeavesSafe(v: string)
    ensures Safe(StripTags(v, "<", ""))
    decreases |v|
  {
    if v != [] {
      if v[0] == '<' && FirstClose(v, 1).Some? {
        StripLeavesSafe(v[FirstClose(v, 1).value + 1..]);
      } else {
        var t := StripTags(v[1..], "<", "");
        StripLeavesSafe(v[1..]);
        if v[0] == '<' {
          FirstCloseSuffix(v, 1, 0);
          NoCloseSurvives(v[1..]);
        }
        KeptCharSafe(v[0], t);
        assert StripTags(v, "<", "") == [v[0]] + t;
      }
    }
  }

  /** A kept character in front of a safe remainder stays safe when it is
      not a `<`, or is a `<` with no `>` after it on its line. */
  lemma KeptCharSafe(c: char, t: string)
    requires Safe(t)
    requires c == '<' ==> FirstClose(t, 0).None?
    ensures Safe([c] + t)
  {
    var r := [c] + t;
    assert r[1..] == t;
    forall a | 0 <= a < |r| && r[a] == '<' ensures FirstClose(r, a + 1).None? {
      FirstCloseSuffix(r, 1, a);
      if a > 0 {
        assert t[a - 1] == '<';
      }
    }
  }

  lemma SafeSuffix(u: string, c: nat)
    requires Safe(u) && c <= |u|
    ensures Safe(u[c..])
  {
    forall a | 0 <= a < |u[c..]| && u[c..][a] == '<' ensures FirstClose(u[c..], a + 1).None? {
      FirstCloseSuffix(u, c, a + 1);
    }
  }

  lemma SafeFirstLine(u: string, i: nat)
    requires Safe(u) && i <= |u| && '\n' !in u[..i]
    ensures TagFree(u[..i])
  {
    forall a, b | 0 <= a < b < i && u[a] == '<' ensures u[b] != '>' {
      assert u[a + 1..i] == u[..i][a + 1..];
      NoCloseOnLine(u, a + 1, i);
    }
  }

  lemma {:induction false} SafeLines(u: string)
    requires Safe(u)
    ensures forall k :: 0 <= k < |Split(u, '\n')| ==> TagFree(Split(u, '\n')[k])
    decreases |u|
  {
    if '\n' in u {
      var i := IndexOf(u, '\n');
      SafeFirstLine(u, i);
      SafeSuffix(u, i + 1);
      SafeLines(u[i + 1..]);
    } else {
      assert u[..|u|] == u;
      SafeFirstLine(u, |u|);
    }
  }

  lemma StrippedTagFree(line: string)
    requires TagFree(line)
    ensures TagFree(PyStrip(line))
  {
    var i, j := TrimIsSlice(line, IsPySpace);
    assert PyStrip(line) == line[i..j];
  }

  lemma {:induction false} KeptTagFree(lines: seq<string>)
    requires forall k :: 0 <= k < |lines| ==> TagFree(lines[k])
    ensures forall k :: 0 <= k < |StripEach(Filter(lines, HasText))| ==> TagFree(StripEach(Filter(lines, HasText))[k])
  {
    var kept := Filter(lines, HasText);
    forall k | 0 <= k < |kept| ensures TagFree(PyStrip(kept[k])) {
      assert kept[k] in lines;
      StrippedTagFree(kept[k]);
    }
  }

  /** No step of the result contains a `<` followed later by a `>`. */
  lemma NoTagSurvives(html: string)
    ensures forall k :: 0 <= k < |ConvertHtmlToJson(html)| ==> TagFree(ConvertHtmlToJson(html)[k])
  {
    var u := RemoveTags(html);
    StripLeavesSafe(StripTags(StripTags(html, "<ul", "</ul>"), "<li", "</li>"));
    SafeLines(u);
    KeptTagFree(Split(u, '\n'));
  }
}

/** `getImageLink` of the recipe grid: the first match of the pattern

      (?:youtube\.com\/(?:[^\/\n\s]+\/\S+\/|(?:v|e(?:mbed)?)\/|.*[?&]v=)|youtu\.be\/)([a-zA-Z0-9_-]{11})

    in `LinkYT` supplies an 11-character video ID, which becomes a YouTube
    thumbnail URL; no link or no match gives a fixed fallback image.

    The match is the one a backtracking engine reports: the leftmost start
    position; at that position the alternatives in their written order; and
    within an alternative the greedy choice, i.e. the longest `\S+` and the
    longest `.*` that still let the eleven ID characters follow. */
module VideoThumbnail {
  import opened Wrappers
  import opened Text

  /** A video ID: eleven characters from `[a-zA-Z0-9_-]`. */
  predicate IsVideoId(id: string) {
    |id| == 11 && forall k :: 0 <= k < 11 ==> IsWordOrHyphen(id[k])
  }

  /** A video ID starts at position `k` of `s`. */
  predicate IdAt(s: string, k: int) {
    0 <= k && k + 11 <= |s| && forall j :: k <= j < k + 11 ==> IsWordOrHyphen(s[j])
  }

  /** `[^\/\n\s]` */
  predicate IsSegmentChar(c: char) {
    c != '/' && !IsJsSpace(c)
  }

  /** `\S` */
  predicate IsNonSpace(c: char) {
    !IsJsSpace(c)
  }

  /** `.`: anything but an ECMAScript line terminator. */
  predicate IsLineChar(c: char) {
    c != '\n' && c != '\r' && c != '\U{2028}' && c != '\U{2029}'
  }

  /** A `/` at position `t` that a video ID follows. */
  predicate SlashIdAt(s: string, t: int) {
    0 <= t < |s| && s[t] == '/' && IdAt(s, t + 1)
  }

  /** The last `/` in `[lo, hi)` that a video ID follows; the result is
      where that ID starts. */
  function LastSlashBeforeId(s: string, lo: nat, hi: nat): (k: Option<nat>)
    requires hi <= |s|
    ensures k.Some? ==> lo < k.value <= hi && SlashIdAt(s, k.value - 1)
    ensures k.Some? ==> forall t :: k.value <= t < hi ==> !SlashIdAt(s, t)
    ensures k.None? ==> forall t :: lo <= t < hi ==> !SlashIdAt(s, t)
    decreases hi
  {
    if hi <= lo then None
    else if SlashIdAt(s, hi - 1) then Some(hi)
    else LastSlashBeforeId(s, lo, hi - 1)
  }

  /** `[?&]v=` followed by a video ID at position `p`. */
  predicate VParamAt(s: string, p: int) {
    0 <= p && p + 3 <= |s| && (s[p] == '?' || s[p] == '&') && s[p + 1] == 'v' && s[p + 2] == '='
    && IdAt(s, p + 3)
  }

  /** `[?&]v=` at position `k` of `t`. */
  predicate VKeyAt(t: string, k: int) {
    0 <= k && k + 2 < |t| && (t[k] == '?' || t[k] == '&') && t[k + 1] == 'v' && t[k + 2] == '='
  }

  /** Text holding no `?v=` and no `&v=`. */
  predicate NoVParamText(t: string) {
    forall k :: 0 <= k < |t| ==> !VKeyAt(t, k)
  }

  /** The last `[?&]v=` in `[lo, hi)` that a video ID follows; the result
      is where that ID starts. */
  function LastVParam(s: string, lo: nat, hi: nat): (k: Option<nat>)
    requires hi <= |s|
    ensures k.Some? ==> lo + 3 <= k.value < hi + 3 && VParamAt(s, k.value - 3)
    ensures k.Some? ==> forall p :: k.value - 3 < p < hi ==> !VParamAt(s, p)
    ensures k.None? ==> forall p :: lo <= p < hi ==> !VParamAt(s, p)
    decreases hi
  {
    if hi <= lo then None
    else if VParamAt(s, hi - 1) then Some(hi + 2)
    else LastVParam(s, lo, hi - 1)
  }

  /** The alternative `[^\/\n\s]+\/\S+\/`, tried at position `q`: one path
      segment, a slash, the longest run of non-space characters that ends in
      a slash followed by an ID. */
  function PathBranch(s: string, q: nat): Option<nat>
    requires q <= |s|
  {
    var e := q + Lead(s[q..], IsSegmentChar);
    if e == q || e == |s| || s[e] != '/' then None
    else LastSlashBeforeId(s, e + 2, e + 1 + Lead(s[e + 1..], IsNonSpace))
  }

  /** The alternative `(?:v|e(?:mbed)?)\/`, tried at position `q`. */
  function ShortBranch(s: string, q: nat): Option<nat>
    requires q <= |s|
  {
    if StartsWith(s[q..], "v/") && IdAt(s, q + 2) then Some(q + 2)
    else if StartsWith(s[q..], "embed/") && IdAt(s, q + 6) then Some(q + 6)
    else if StartsWith(s[q..], "e/") && IdAt(s, q + 2) then Some(q + 2)
    else None
  }

  /** The alternative `.*[?&]v=`, tried at position `q`: the last `v`
      parameter on the same line that an ID follows. */
  function QueryBranch(s: string, q: nat): Option<nat>
    requires q <= |s|
  {
    LastVParam(s, q, q + Lead(s[q..], IsLineChar))
  }

  /** Where the captured ID starts if the pattern matches at position `i`. */
  function MatchAt(s: string, i: nat): (k: Option<nat>)
    requires i <= |s|
    ensures k.Some? ==> i < k.value && IdAt(s, k.value)
  {
    if StartsWith(s[i..], "youtube.com/") then
      var q := i + 12;
      var path := PathBranch(s, q);
      if path.Some? then path
      else
        var short := ShortBranch(s, q);
        if short.Some? then short else QueryBranch(s, q)
    else if StartsWith(s[i..], "youtu.be/") && IdAt(s, i + 9) then Some(i + 9)
    else None
  }

  /** The leftmost position at or after `i` where the pattern matches. */
  function FirstMatch(s: string, i: nat): (j: Option<nat>)
    requires i <= |s|
    ensures j.Some? ==> i <= j.value <= |s| && MatchAt(s, j.value).Some?
    ensures j.Some? ==> forall k :: i <= k < j.value ==> MatchAt(s, k).None?
    ensures j.None? ==> forall k :: i <= k <= |s| ==> MatchAt(s, k).None?
    decreases |s| - i
  {
    if MatchAt(s, i).Some? then Some(i)
    else if i == |s| then None
    else FirstMatch(s, i + 1)
  }

  /** Where the group captured by the leftmost match starts. */
  function Capture(s: string): (k: Option<nat>)
    ensures k.Some? ==> IdAt(s, k.value)
  {
    match FirstMatch(s, 0)
    case None => None
    case Some(i) => MatchAt(s, i)
  }

  /** `videoIdMatch ? videoIdMatch[1] : null`, with `ytLink?.match` giving
      nothing for a missing link. */
  function VideoId(link: Option<string>): (id: Option<string>)
    ensures id.Some? ==> IsVideoId(id.value)
  {
    match link
    case None => None
    case Some(s) =>
      match Capture(s)
      case None => None
      case Some(k) => Some(s[k..k + 11])
  }

  const DefaultImage := "/path/to/default-image.jpg"

  /** `getImageLink(recipe)` for `recipe.LinkYT == link`. */
  function ImageLink(link: Option<string>): string {
    match VideoId(link)
    case Some(id) => "https://img.youtube.com/vi/" + id + "/maxresdefault.jpg"
    case None => DefaultImage
  }

  // ---------------------------------------------------------------------
  // Properties

  /** The thumbnail is a YouTube one exactly when an ID was found, and then
      it embeds that ID; otherwise it is the fallback image. */
  lemma ImageLinkCases(link: Option<string>)
    ensures VideoId(link).Some? ==>
      var url := ImageLink(link);
      |url| == 27 + 11 + 18 && url[27..38] == VideoId(link).value
      && StartsWith(url, "https://img.youtube.com/vi/") && EndsWith(url, "/maxresdefault.jpg")
    ensures VideoId(link).None? <==> ImageLink(link) == DefaultImage
  {
  }

  /** No link, or a link that mentions neither host, gives the fallback. */
  lemma NoHostNoThumbnail(link: Option<string>)
    requires link.Some? ==> !Contains(link.value, "youtube.com/") && !Contains(link.value, "youtu.be/")
    ensures ImageLink(link) == DefaultImage
  {
    if link.Some? {
      var s := link.value;
      forall i | 0 <= i <= |s| ensures MatchAt(s, i).None? {
        if StartsWith(s[i..], "youtube.com/") {
          assert s[i..i + 12] == s[i..][..12];
          ContainsAt(s, "youtube.com/", i);
        } else if StartsWith(s[i..], "youtu.be/") {
          assert s[i..i + 9] == s[i..][..9];
          ContainsAt(s, "youtu.be/", i);
        }
      }
    }
  }

  /** A text without the letter `y` holds no match, so the first match of
      `prefix + tail` is the first match of `tail`, shifted. */
  lemma FirstMatchAfterPrefix(prefix: string, tail: string)
    requires 'y' !in prefix
    requires MatchAt(prefix + tail, |prefix|).Some?
    ensures FirstMatch(prefix + tail, 0) == Some(|prefix|)
  {
    var s := prefix + tail;
    forall i | 0 <= i < |prefix| ensures MatchAt(s, i).None? {
      assert s[i] == prefix[i];
      NoMatchWithoutY(s, i);
    }
    var j := FirstMatch(s, 0);
    assert j.Some?;
    assert j.value >= |prefix|;
    assert j.value <= |prefix|;
  }

  /** The pattern cannot match at a character other than `y`. */
  lemma NoMatchWithoutY(s: string, i: nat)
    requires i < |s| && s[i] != 'y'
    ensures MatchAt(s, i).None?
  {
    assert !StartsWith(s[i..], "youtube.com/") && !StartsWith(s[i..], "youtu.be/") by {
      assert s[i..][0] == s[i];
    }
  }

  /** At `youtu.be/` followed by an ID, the second alternative of the
      pattern matches. */
  lemma ShortLinkMatch(s: string, i: nat)
    requires i + 9 <= |s| && s[i..i + 9] == "youtu.be/" && IdAt(s, i + 9)
    ensures MatchAt(s, i) == Some(i + 9)
  {
    assert s[i..][..9] == "youtu.be/";
    assert !StartsWith(s[i..], "youtube.com/") by { assert s[i..][5] == '.'; }
  }

  /** `youtu.be/ID` after text without a `y`. */
  lemma ShortLinkId(prefix: string, id: string, rest: string)
    requires 'y' !in prefix && IsVideoId(id)
    ensures VideoId(Some(prefix + "youtu.be/" + id + rest)) == Some(id)
  {
    var host := "youtu.be/";
    var s := prefix + (host + id + rest);
    var i := |prefix|;
    LinkLayout(prefix, host, id, rest);
    ShortLinkMatch(s, i);
    LinkId(prefix, host, id, rest);
  }

  /** The first alternative fails when the path segment at `q` is followed
      by the only slash from there on. */
  lemma PathBranchOneSlash(s: string, q: nat, segment: string)
    requires q + |segment| < |s| && s[q..q + |segment|] == segment
    requires forall k :: 0 <= k < |segment| ==> IsSegmentChar(segment[k])
    requires s[q + |segment|] == '/'
    requires forall t :: q + |segment| < t < |s| ==> s[t] != '/'
    ensures PathBranch(s, q).None?
  {
    assert s[q..] == segment + s[q + |segment|..];
    LeadOfPadded(segment, s[q + |segment|..], IsSegmentChar);
  }

  /** The first alternative fails when no slash follows `q`. */
  lemma PathBranchNoSlash(s: string, q: nat)
    requires q <= |s|
    requires forall t :: q <= t < |s| ==> s[t] != '/'
    ensures PathBranch(s, q).None?
  {
  }

  /** The positions of `s == prefix + host + id + rest`. */
  lemma Layout(s: string, prefix: string, host: string, id: string, rest: string)
    requires s == prefix + host + id + rest
    ensures s[|prefix|..] == host + id + rest
    ensures forall t :: 0 <= t < |host| ==> s[|prefix| + t] == host[t]
    ensures forall t :: 0 <= t < |id| ==> s[|prefix| + |host| + t] == id[t]
    ensures forall t :: 0 <= t < |rest| ==> s[|prefix| + |host| + |id| + t] == rest[t]
    ensures s[|prefix| + |host|..|prefix| + |host| + |id|] == id
  {
  }

  /** With a text free of `y` in front, the ID is the one the match at
      the end of that text captures. */
  lemma VideoIdAfterPrefix(prefix: string, tail: string, k: nat)
    requires 'y' !in prefix
    requires MatchAt(prefix + tail, |prefix|) == Some(k)
    ensures VideoId(Some(prefix + tail)) == Some((prefix + tail)[k..k + 11])
  {
    FirstMatchAfterPrefix(prefix, tail);
    assert Capture(prefix + tail) == Some(k);
    VideoIdOfCapture(prefix + tail, k);
  }

  /** The ID is the eleven characters where the capture starts. */
  lemma VideoIdOfCapture(s: string, k: nat)
    requires Capture(s) == Some(k)
    ensures VideoId(Some(s)) == Some(s[k..k + 11])
  {
  }

  /** At a `youtube.com/` whose first alternative fails, a matching second
      alternative decides. */
  lemma MatchAtShort(s: string, i: nat)
    requires i + 12 <= |s| && s[i..i + 12] == "youtube.com/"
    requires PathBranch(s, i + 12).None? && ShortBranch(s, i + 12).Some?
    ensures MatchAt(s, i) == ShortBranch(s, i + 12)
  {
    assert s[i..][..12] == s[i..i + 12];
  }

  lemma SliceOfSlice(s: string, a: nat, b: nat, c: nat, d: nat)
    requires a <= b <= |s| && c <= d <= b - a
    ensures s[a..b][c..d] == s[a + c..a + d]
  {
    assert forall k :: 0 <= k < d - c ==> s[a..b][c..d][k] == s[a + c..a + d][k];
  }

  lemma EmbedMatch(s: string, i: nat)
    requires i + 18 <= |s| && s[i..i + 18] == "youtube.com/embed/" && IdAt(s, i + 18)
    requires forall t :: i + 17 < t < |s| ==> s[t] != '/'
    ensures MatchAt(s, i) == Some(i + 18)
  {
    var q := i + 12;
    assert s[i..i + 12] == s[i..i + 18][..12];
    SliceOfSlice(s, i, i + 18, 12, 17);
    PathBranchOneSlash(s, q, "embed");
    assert s[q..][..6] == s[i..i + 18][12..];
    assert ShortBranch(s, q) == Some(q + 6);
    MatchAtShort(s, i);
  }

  /** Where the parts of `prefix + host + id + rest` sit. */
  lemma LinkLayout(prefix: string, host: string, id: string, rest: string)
    requires IsVideoId(id)
    ensures var s := prefix + host + id + rest;
      var h := |prefix| + |host|;
      && s[|prefix|..h] == host
      && s[h..h + 11] == id
      && IdAt(s, h)
      && (forall t :: h + 11 <= t < |s| ==> s[t] == rest[t - h - 11])
      && s == prefix + (host + id + rest)
  {
    var s := prefix + host + id + rest;
    var h := |prefix| + |host|;
    assert forall j :: h <= j < h + 11 ==> s[j] == id[j - h];
  }

  /** A link whose leftmost match is at the end of a `y`-free prefix and
      captures the ID right after the host yields that ID. */
  lemma LinkId(prefix: string, host: string, id: string, rest: string)
    requires 'y' !in prefix && IsVideoId(id)
    requires MatchAt(prefix + (host + id + rest), |prefix|) == Some(|prefix| + |host|)
    ensures VideoId(Some(prefix + host + id + rest)) == Some(id)
  {
    var tail := host + id + rest;
    var h := |prefix| + |host|;
    LinkLayout(prefix, host, id, rest);
    VideoIdAfterPrefix(prefix, tail, h);
  }

  /** `youtube.com/embed/ID` after text without a `y`, when no further
      slash follows (a later `/ID` would be taken by the first alternative). */
  lemma EmbedLinkId(prefix: string, id: string, rest: string)
    requires 'y' !in prefix && IsVideoId(id) && '/' !in rest
    ensures VideoId(Some(prefix + "youtube.com/embed/" + id + rest)) == Some(id)
  {
    var host := "youtube.com/embed/";
    var tail := host + id + rest;
    var s := prefix + tail;
    var i := |prefix|;
    LinkLayout(prefix, host, id, rest);
    forall t | i + 17 < t < |s| ensures s[t] != '/' {
      if t >= i + 29 {
        assert s[t] == rest[t - i - 29];
      }
    }
    EmbedMatch(s, i);
    LinkId(prefix, host, id, rest);
  }

  lemma VMatch(s: string, i: nat)
    requires i + 14 <= |s| && s[i..i + 14] == "youtube.com/v/" && IdAt(s, i + 14)
    requires forall t :: i + 13 < t < |s| ==> s[t] != '/'
    ensures MatchAt(s, i) == Some(i + 14)
  {
    var q := i + 12;
    SliceOfSlice(s, i, i + 14, 0, 12);
    SliceOfSlice(s, i, i + 14, 12, 13);
    PathBranchOneSlash(s, q, "v");
    assert s[q..][..2] == s[i..i + 14][12..];
    assert ShortBranch(s, q) == Some(q + 2);
    MatchAtShort(s, i);
  }

  /** `youtube.com/v/ID` after text without a `y`, when no further slash
      follows. */
  lemma VLinkId(prefix: string, id: string, rest: string)
    requires 'y' !in prefix && IsVideoId(id) && '/' !in rest
    ensures VideoId(Some(prefix + "youtube.com/v/" + id + rest)) == Some(id)
  {
    var host := "youtube.com/v/";
    var tail := host + id + rest;
    var s := prefix + tail;
    var i := |prefix|;
    LinkLayout(prefix, host, id, rest);
    forall t | i + 13 < t < |s| ensures s[t] != '/' {
      if t >= i + 25 {
        assert s[t] == rest[t - i - 25];
      }
    }
    VMatch(s, i);
    LinkId(prefix, host, id, rest);
  }

  /** The third alternative at `watch?v=ID`, with no later `[?&]v=ID`. */
  lemma QueryBranchWatch(s: string, q: nat)
    requires q + 8 <= |s| && s[q..q + 8] == "watch?v=" && IdAt(s, q + 8)
    requires forall p :: q + 5 < p < |s| ==> !VParamAt(s, p)
    ensures QueryBranch(s, q) == Some(q + 8)
  {
    var n := Lead(s[q..], IsLineChar);
    assert forall k :: 0 <= k < 8 ==> s[q..][k] == s[q..q + 8][k];
    assert n >= 6;
    assert VParamAt(s, q + 5);
    var k := LastVParam(s, q, q + n);
    assert k.Some?;
    assert k.value - 3 <= q + 5;
    assert k.value - 3 >= q + 5;
  }

  /** At a `youtube.com/` where the first two alternatives fail, the third
      decides. */
  lemma MatchAtQuery(s: string, i: nat)
    requires i + 12 <= |s| && s[i..i + 12] == "youtube.com/"
    requires PathBranch(s, i + 12).None? && ShortBranch(s, i + 12).None?
    ensures MatchAt(s, i) == QueryBranch(s, i + 12)
  {
    assert s[i..][..12] == s[i..i + 12];
  }

  lemma WatchMatch(s: string, i: nat)
    requires i + 20 <= |s| && s[i..i + 20] == "youtube.com/watch?v=" && IdAt(s, i + 20)
    requires forall t :: i + 20 <= t < |s| ==> s[t] != '/'
    requires forall p :: i + 20 <= p < |s| ==> !VParamAt(s, p)
    ensures MatchAt(s, i) == Some(i + 20)
  {
    var q := i + 12;
    SliceOfSlice(s, i, i + 20, 0, 12);
    SliceOfSlice(s, i, i + 20, 12, 20);
    WatchChars(s, q);
    assert forall p :: q + 5 < p < |s| ==> !VParamAt(s, p);
    PathBranchNoSlash(s, q);
    ShortBranchAtW(s, q);
    QueryBranchWatch(s, q);
    MatchAtQuery(s, i);
  }

  /** The characters of `watch?v=`. */
  lemma WatchChars(s: string, q: nat)
    requires q + 8 <= |s| && s[q..q + 8] == "watch?v="
    ensures s[q] == 'w'
    ensures forall t :: q <= t < q + 8 ==> s[t] != '/' && (q + 5 < t ==> s[t] != '?' && s[t] != '&')
  {
    forall t | q <= t < q + 8 ensures s[t] == "watch?v="[t - q] {
      assert s[t] == s[q..q + 8][t - q];
    }
  }

  /** No alternative of the second kind starts with `w`. */
  lemma ShortBranchAtW(s: string, q: nat)
    requires q < |s| && s[q] == 'w'
    ensures ShortBranch(s, q).None?
  {
    assert s[q..][0] == 'w';
  }

  /** `youtube.com/watch?v=ID` after text without a `y`, when neither a
      slash nor another `?v=` or `&v=` follows; further parameters such as
      `&t=42s` may. */
  lemma WatchLinkId(prefix: string, id: string, rest: string)
    requires 'y' !in prefix && IsVideoId(id)
    requires '/' !in rest && NoVParamText(rest)
    ensures VideoId(Some(prefix + "youtube.com/watch?v=" + id + rest)) == Some(id)
  {
    var host := "youtube.com/watch?v=";
    var tail := host + id + rest;
    var s := prefix + tail;
    var i := |prefix|;
    LinkLayout(prefix, host, id, rest);
    WatchTail(s, i, rest);
    LinkId(prefix, host, id, rest);
  }

  /** `youtube.com/watch?v=ID` at `i` followed by `rest` and nothing else. */
  lemma WatchTail(s: string, i: nat, rest: string)
    requires i + 20 <= |s| && s[i..i + 20] == "youtube.com/watch?v=" && IdAt(s, i + 20)
    requires |s| == i + 31 + |rest| && '/' !in rest && NoVParamText(rest)
    requires forall t :: i + 31 <= t < |s| ==> s[t] == rest[t - i - 31]
    ensures MatchAt(s, i) == Some(i + 20)
  {
    IdHasNoVParam(s, i + 20);
    TextHasNoVParam(s, i + 31, rest);
    WatchMatch(s, i);
  }

  /** No slash and no `[?&]v=` start inside a video ID. */
  lemma IdHasNoVParam(s: string, h: nat)
    requires IdAt(s, h)
    ensures forall t :: h <= t < h + 11 ==> s[t] != '/'
    ensures forall p :: h <= p < h + 11 ==> !VParamAt(s, p)
  {
  }

  /** No slash and no `[?&]v=` start in a tail of `s` that is text free
      of slashes, `?v=` and `&v=`. */
  lemma TextHasNoVParam(s: string, h: nat, rest: string)
    requires |s| == h + |rest| && '/' !in rest && NoVParamText(rest)
    requires forall t :: h <= t < |s| ==> s[t] == rest[t - h]
    ensures forall t :: h <= t < |s| ==> s[t] != '/'
    ensures forall p :: h <= p < |s| ==> !VParamAt(s, p)
  {
    forall t | h <= t < |s| ensures s[t] != '/' {
      assert s[t] == rest[t - h];
    }
    forall p | h <= p < |s| ensures !VParamAt(s, p) {
      if p + 2 < |s| {
        assert s[p] == rest[p - h];
        assert s[p + 1] == rest[p + 1 - h];
        assert s[p + 2] == rest[p + 2 - h];
        assert !VKeyAt(rest, p - h);
      }
    }
  }

  /** A watch link that carries a start time after the ID. */
  lemma WatchLinkWithTime(id: string)
    requires IsVideoId(id)
    ensures VideoId(Some("https://www." + "youtube.com/watch?v=" + id + "&t=42s")) == Some(id)
  {
    assert "&t=42s"[1] == 't';
    WatchLinkId("https://www.", id, "&t=42s");
  }
}

/**
 * Quality-option selection of the formats endpoint
 * (src/app/api/download/formats/route.js).
 *
 * The extractor's JSON output is a list of format records and a duration.
 * The handler picks the best audio-only format by bitrate, keeps the mp4
 * video formats at 1080/720/480/360, sorts them by height (descending), keeps
 * one format per height, and turns each into a download option with a size
 * estimate and a label. The extractor itself is a parameter.
 *
 * JavaScript truthiness is written out: an optional number is truthy when it
 * is present and not zero. Bitrates (kbps), sizes (bytes) and the duration
 * (seconds) are integers, so (x * 1024 * d) / 8 is x * 128 * d exactly and
 * Math.round changes nothing. A size that would be NaN in the source is None.
 */
module FormatsRoute {
  import opened Wrappers

  /** One entry of the extractor's `formats` list. */
  datatype Format = Format(
    formatId: string,
    vcodec: string,
    acodec: string,
    ext: string,
    height: Option<int>,
    resolution: string,
    tbr: Option<int>,
    filesize: Option<int>,
    fps: Option<int>)

  /** What the extractor returns: the formats and the duration in seconds. */
  datatype VideoData = VideoData(formats: seq<Format>, duration: Option<int>)

  /** The size shown in a label: the unit-selection result of formatFileSize.
      Rendering `amount` with one decimal is not modelled. */
  datatype SizeText =
    | SizeUnavailable
    | SizeShown(estimated: bool, amount: real, unit: string)
  {
    /** The '~' that marks an estimate. */
    function Prefix(): string
    {
      if SizeShown? && estimated then "~" else ""
    }
  }

  /** A label: "<height>p", then " <fps>fps" when fps > 30, then the size. */
  datatype Label = Label(heading: string, size: SizeText)

  /** One entry of the `qualityOptions` response. */
  datatype QualityOption = QualityOption(
    formatId: string,
    resolution: string,
    fps: int,
    filesize: Option<int>,
    vcodec: string,
    acodec: string,
    ext: string,
    optionLabel: Label)  // the `label` field (`label` is a Dafny keyword)

  /** The HTTP response of POST. */
  datatype Response =
    | Options(qualityOptions: seq<QualityOption>)
    | ErrorResponse(status: int, error: string)

  // ---------------------------------------------------------------------------
  // Helpers on sequences and numbers

  /** JavaScript truthiness of an optional number. */
  predicate Truthy(n: Option<int>)
  {
    n.Some? && n.value != 0
  }

  /** Array.prototype.filter. */
  function Filter(s: seq<Format>, p: Format -> bool): (r: seq<Format>)
    ensures |r| <= |s|
    ensures forall x :: x in r <==> x in s && p(x)
    ensures forall i :: 0 <= i < |r| ==> p(r[i])
  {
    if s == [] then []
    else (if p(s[0]) then [s[0]] else []) + Filter(s[1..], p)
  }

  /** The filter keeps each element satisfying `p` as often as it occurs,
      and no other. */
  lemma {:induction false} FilterCounts(s: seq<Format>, p: Format -> bool)
    ensures forall x :: multiset(Filter(s, p))[x] == if p(x) then multiset(s)[x] else 0
    decreases |s|
  {
    if s != [] {
      FilterCounts(s[1..], p);
      assert s == [s[0]] + s[1..];
    }
  }

  /** The filter keeps order: filtering a concatenation filters each part. */
  lemma {:induction false} FilterAppend(a: seq<Format>, b: seq<Format>, p: Format -> bool)
    ensures Filter(a + b, p) == Filter(a, p) + Filter(b, p)
    decreases |a|
  {
    if a == [] {
      assert a + b == b;
    } else {
      assert (a + b)[1..] == a[1..] + b;
      FilterAppend(a[1..], b, p);
    }
  }

  /** The decimal digits of a natural number. */
  function NatToString(n: nat): (s: string)
    ensures |s| > 0
    ensures forall i :: 0 <= i < |s| ==> '0' <= s[i] <= '9'
    decreases n
  {
    var d := "0123456789"[n % 10];
    if n < 10 then [d] else NatToString(n / 10) + [d]
  }

  /** The template-literal rendering of an integer. */
  function IntToString(i: int): string
  {
    if i < 0 then "-" + NatToString(-i) else NatToString(i)
  }

  // ---------------------------------------------------------------------------
  // Best audio format (the filter and reduce over `videoData.formats`)

  /** An audio-only format: no video codec, some audio codec. */
  predicate IsAudioCandidate(f: Format)
  {
    f.vcodec == "none" && f.acodec != "none"
  }

  /** The replacement test of the reduce: `current` has a truthy bitrate and
      `best` a falsy or strictly lower one. */
  predicate Beats(current: Format, best: Format)
  {
    Truthy(current.tbr) && (!Truthy(best.tbr) || current.tbr.value > best.tbr.value)
  }

  /** Beating is transitive. */
  lemma BeatsTransitive(x: Format, y: Format, z: Format)
    requires Beats(x, y) && Beats(y, z)
    ensures Beats(x, z)
  {
  }

  /** What beats `b` beats whatever does not. */
  lemma BeatsPast(x: Format, y: Format, b: Format)
    requires Beats(x, b) && !Beats(y, b)
    ensures Beats(x, y)
  {
  }

  /** One step of the reduce: take `current` when there is no best yet, or
      when it beats the best so far. */
  function BetterAudio(best: Option<Format>, current: Format): Option<Format>
  {
    if best.None? || Beats(current, best.value) then Some(current) else best
  }

  /** The formats the reduce has to choose from: the accumulator, if any,
      then the rest of the list. */
  function Seen(best: Option<Format>, rest: seq<Format>): seq<Format>
  {
    (if best.Some? then [best.value] else []) + rest
  }

  /** Index `i` is the reduce's pick in `s`: `s[i]` beats every earlier format
      and no later format beats it. */
  predicate IsPick(s: seq<Format>, i: int)
  {
    && 0 <= i < |s|
    && (forall j :: 0 <= j < i ==> Beats(s[i], s[j]))
    && (forall j :: i < j < |s| ==> !Beats(s[j], s[i]))
  }

  /** The pick in plain terms: the earliest format with the highest truthy
      bitrate, or the first format when no bitrate is truthy. */
  predicate EarliestTop(s: seq<Format>, i: int)
  {
    && 0 <= i < |s|
    && if exists j :: 0 <= j < |s| && Truthy(s[j].tbr) then
         && Truthy(s[i].tbr)
         && (forall j :: 0 <= j < |s| && Truthy(s[j].tbr) ==> s[j].tbr.value <= s[i].tbr.value)
         && (forall j :: 0 <= j < i && Truthy(s[j].tbr) ==> s[j].tbr.value < s[i].tbr.value)
       else i == 0
  }

  /** The two descriptions of the pick agree. */
  lemma PickIffEarliestTop(s: seq<Format>, i: int)
    ensures IsPick(s, i) <==> EarliestTop(s, i)
  {
    if IsPick(s, i) && !Truthy(s[i].tbr) {
      assert i == 0 || Beats(s[i], s[0]);
      forall j | 0 <= j < |s| ensures !Truthy(s[j].tbr) {
        if j > 0 {
          assert !Beats(s[j], s[0]);
        }
      }
    }
  }

  /** One step of the reduce keeps the pick: the format the reduce over the
      stepped accumulator picks by IsPick is also picked by IsPick from the
      accumulator `best` followed by `rest`. */
  lemma PickStep(best: Option<Format>, rest: seq<Format>, k: int)
    requires rest != [] && IsPick(Seen(BetterAudio(best, rest[0]), rest[1..]), k)
    ensures exists i :: IsPick(Seen(best, rest), i) && Seen(best, rest)[i] == Seen(BetterAudio(best, rest[0]), rest[1..])[k]
  {
    var t := Seen(BetterAudio(best, rest[0]), rest[1..]);
    var s := Seen(best, rest);
    if best.None? {
      assert t == rest == s;
      assert IsPick(s, k) && s[k] == t[k];
    } else if Beats(rest[0], best.value) {
      assert t == rest && s == [best.value] + rest;
      BeatsAhead(best.value, rest, k);
      assert IsPick(s, k + 1) && s[k + 1] == t[k];
    } else {
      assert t == [best.value] + rest[1..] && s == [best.value] + rest;
      KeepAhead(best.value, rest, k);
      var i := if k == 0 then 0 else k + 1;
      assert IsPick(s, i) && s[i] == t[k];
    }
  }

  /** The pick survives a format that does not beat the accumulator `b`. */
  lemma KeepAhead(b: Format, rest: seq<Format>, k: int)
    requires rest != [] && !Beats(rest[0], b) && IsPick([b] + rest[1..], k)
    ensures IsPick([b] + rest, if k == 0 then 0 else k + 1)
  {
    var t := [b] + rest[1..];
    var s := [b] + rest;
    assert forall j :: 1 < j < |s| ==> s[j] == t[j - 1];
    if k > 0 {
      assert s[k + 1] == t[k] && Beats(t[k], t[0]);
      BeatsPast(t[k], rest[0], b);
    }
  }

  /** The pick of a list headed by a format that beats `b` is also the pick
      of the list with `b` in front. */
  lemma BeatsAhead(b: Format, rest: seq<Format>, k: int)
    requires rest != [] && Beats(rest[0], b) && IsPick(rest, k)
    ensures IsPick([b] + rest, k + 1)
  {
    var s := [b] + rest;
    forall j | 0 <= j < k + 1 ensures Beats(s[k + 1], s[j]) {
      if j == 0 {
        if k > 0 { BeatsTransitive(rest[k], rest[0], b); }
      } else {
        assert s[j] == rest[j - 1];
      }
    }
    forall j | k + 1 < j < |s| ensures !Beats(s[j], s[k + 1]) {
      assert s[j] == rest[j - 1];
    }
  }

  /** The reduce from accumulator `best` over `rest`: null only from null over
      an empty list; otherwise the format at the IsPick index of the
      accumulator followed by `rest`, which the strict `>` makes the earliest
      of those with the highest truthy bitrate. */
  function PickBest(best: Option<Format>, rest: seq<Format>): (r: Option<Format>)
    ensures r.None? <==> best.None? && rest == []
    ensures r.Some? ==> exists i :: IsPick(Seen(best, rest), i) && r.value == Seen(best, rest)[i]
    decreases |rest|
  {
    if rest == [] then
      assert best.Some? ==> IsPick(Seen(best, rest), 0);
      best
    else
      var r := PickBest(BetterAudio(best, rest[0]), rest[1..]);
      assert r.Some? ==> exists i :: IsPick(Seen(best, rest), i) && r.value == Seen(best, rest)[i] by {
        if r.Some? {
          var k :| IsPick(Seen(BetterAudio(best, rest[0]), rest[1..]), k) &&
                   r.value == Seen(BetterAudio(best, rest[0]), rest[1..])[k];
          PickStep(best, rest, k);
        }
      }
      r
  }

  /** bestAudioFormat: null (None) exactly when there is no audio-only format;
      otherwise the audio-only format at the IsPick index of the audio-only
      formats. */
  function BestAudio(formats: seq<Format>): (r: Option<Format>)
    ensures r.None? <==> forall f :: f in formats ==> !IsAudioCandidate(f)
    ensures r.Some? ==> exists i :: IsPick(Filter(formats, IsAudioCandidate), i) &&
                                    r.value == Filter(formats, IsAudioCandidate)[i]
  {
    var candidates := Filter(formats, IsAudioCandidate);
    assert candidates == [] ==> forall f :: f in formats ==> !IsAudioCandidate(f);
    assert candidates != [] ==> candidates[0] in formats;
    assert Seen(None, candidates) == candidates;
    PickBest(None, candidates)
  }

  /** bestAudioFormat is an audio-only format of the list: of the audio-only
      formats, the earliest with the highest truthy bitrate, or the first one
      when none has a truthy bitrate. */
  lemma BestAudioEarliestTop(formats: seq<Format>)
    ensures BestAudio(formats).Some? ==>
              BestAudio(formats).value in formats && IsAudioCandidate(BestAudio(formats).value)
    ensures BestAudio(formats).Some? ==>
              exists i :: EarliestTop(Filter(formats, IsAudioCandidate), i) &&
                          BestAudio(formats).value == Filter(formats, IsAudioCandidate)[i]
  {
    var c := Filter(formats, IsAudioCandidate);
    if BestAudio(formats).Some? {
      var i :| IsPick(c, i) && BestAudio(formats).value == c[i];
      PickIffEarliestTop(c, i);
      assert c[i] in c;
    }
  }

  /** Two audio-only formats with the same truthy bitrate: the first wins. */
  lemma BestAudioTieKeepsFirst(a: Format, b: Format)
    requires IsAudioCandidate(a) && IsAudioCandidate(b) && Truthy(a.tbr) && a.tbr == b.tbr
    ensures BestAudio([a, b]) == Some(a)
  {
    assert Filter([a, b], IsAudioCandidate) == [a, b] by {
      assert [a, b][1..] == [b];
      assert [b][1..] == [];
    }
  }

  /** audioSize: the best audio format's truthy filesize, else its bitrate
      times the duration (NaN, here None, when the duration is missing), else 0. */
  function AudioSize(best: Option<Format>, duration: Option<int>): (size: Option<int>)
    ensures best.None? ==> size == Some(0)
    ensures size.None? <==> best.Some? && !Truthy(best.value.filesize) && Truthy(best.value.tbr) && duration.None?
    ensures best.Some? && Truthy(best.value.filesize) ==> size == best.value.filesize
    ensures best.Some? && !Truthy(best.value.filesize) && Truthy(best.value.tbr) && duration.Some? ==>
              size == Some(best.value.tbr.value * 128 * duration.value)
    ensures best.Some? && !Truthy(best.value.filesize) && !Truthy(best.value.tbr) ==> size == Some(0)
  {
    if best.Some? && Truthy(best.value.filesize) then best.value.filesize
    else if best.Some? && Truthy(best.value.tbr) then
      (if duration.Some? then Some(best.value.tbr.value * 128 * duration.value) else None)
    else Some(0)
  }

  // ---------------------------------------------------------------------------
  // Video formats: filter and sort

  /** The heights offered. */
  const CommonResolutions: seq<int> := [1080, 720, 480, 360]

  /** The filter over `videoData.formats`: a video codec, a truthy height, not
      "audio only", mp4, and one of the common heights. */
  predicate Eligible(f: Format)
  {
    && f.vcodec != "none"
    && Truthy(f.height)
    && f.resolution != "audio only"
    && f.ext == "mp4"
    && f.height.value in CommonResolutions
  }

  /** The sort key: the height (every sorted format has one). */
  function HeightOf(f: Format): int
  {
    f.height.GetOr(0)
  }

  /** Non-increasing height order. */
  predicate NonIncreasing(s: seq<Format>)
  {
    forall i, j :: 0 <= i < j < |s| ==> HeightOf(s[i]) >= HeightOf(s[j])
  }

  /** The formats of `s` with height `h`, in their order in `s`. */
  function OfHeight(s: seq<Format>, h: Option<int>): seq<Format>
  {
    if s == [] then []
    else (if s[0].height == h then [s[0]] else []) + OfHeight(s[1..], h)
  }

  /** OfHeight distributes over concatenation. */
  lemma {:induction false} OfHeightAppend(a: seq<Format>, b: seq<Format>, h: Option<int>)
    ensures OfHeight(a + b, h) == OfHeight(a, h) + OfHeight(b, h)
    decreases |a|
  {
    if a == [] {
      assert a + b == b;
    } else {
      var head := if a[0].height == h then [a[0]] else [];
      assert (a + b)[0] == a[0];
      assert (a + b)[1..] == a[1..] + b;
      assert OfHeight(a + b, h) == head + OfHeight(a[1..] + b, h);
      OfHeightAppend(a[1..], b, h);
      assert OfHeight(a, h) == head + OfHeight(a[1..], h);
    }
  }

  /** OfHeight of a list with a format in front. */
  lemma OfHeightCons(y: Format, t: seq<Format>, h: Option<int>)
    ensures OfHeight([y] + t, h) == (if y.height == h then [y] else []) + OfHeight(t, h)
  {
    assert ([y] + t)[0] == y;
    assert ([y] + t)[1..] == t;
  }

  /** A format no lower than every entry of a non-increasing list can head it. */
  lemma ConsNonIncreasing(y: Format, t: seq<Format>)
    requires NonIncreasing(t)
    requires forall j :: 0 <= j < |t| ==> HeightOf(t[j]) <= HeightOf(y)
    ensures NonIncreasing([y] + t)
  {
    var r := [y] + t;
    forall i, j | 0 <= i < j < |r|
      ensures HeightOf(r[i]) >= HeightOf(r[j])
    {
      assert r[j] == t[j - 1];
      if i > 0 {
        assert r[i] == t[i - 1];
      }
    }
  }

  /** Insert `x` into a non-increasing list, before the first format that is
      not higher than `x`. */
  function Insert(x: Format, s: seq<Format>): (r: seq<Format>)
    requires NonIncreasing(s)
    ensures NonIncreasing(r)
    ensures multiset(r) == multiset(s) + multiset{x}
  {
    if s == [] || HeightOf(x) >= HeightOf(s[0]) then
      ConsNonIncreasing(x, s);
      [x] + s
    else
      var t := Insert(x, s[1..]);
      assert s == [s[0]] + s[1..];
      forall j | 0 <= j < |t|
        ensures HeightOf(t[j]) <= HeightOf(s[0])
      {
        assert t[j] in multiset(s[1..]) + multiset{x};
        if t[j] != x {
          var k :| 1 <= k < |s| && s[k] == t[j];
        }
      }
      ConsNonIncreasing(s[0], t);
      [s[0]] + t
  }

  /** Insertion keeps the formats of each height in their order, with `x`
      ahead of the ones sharing its height. */
  lemma {:induction false} InsertStable(x: Format, s: seq<Format>, h: Option<int>)
    requires NonIncreasing(s)
    ensures OfHeight(Insert(x, s), h) == (if x.height == h then [x] else []) + OfHeight(s, h)
    decreases |s|
  {
    if s == [] || HeightOf(x) >= HeightOf(s[0]) {
      assert Insert(x, s) == [x] + s;
      OfHeightCons(x, s, h);
    } else {
      assert NonIncreasing(s[1..]) by {
        forall i, j | 0 <= i < j < |s| - 1 ensures HeightOf(s[1..][i]) >= HeightOf(s[1..][j]) {
          assert s[1..][i] == s[i + 1] && s[1..][j] == s[j + 1];
        }
      }
      var t := Insert(x, s[1..]);
      assert Insert(x, s) == [s[0]] + t;
      InsertStable(x, s[1..], h);
      OfHeightCons(s[0], t, h);
      assert s == [s[0]] + s[1..];
      OfHeightCons(s[0], s[1..], h);
    }
  }

  /** `.sort((a, b) => b.height - a.height)`: a non-increasing permutation. */
  function SortByHeight(s: seq<Format>): (r: seq<Format>)
    ensures NonIncreasing(r)
    ensures multiset(r) == multiset(s)
  {
    if s == [] then []
    else
      assert s == [s[0]] + s[1..];
      Insert(s[0], SortByHeight(s[1..]))
  }

  /** The sort is stable (as Array.prototype.sort is): the formats of each
      height keep their relative order. */
  lemma {:induction false} SortStable(s: seq<Format>, h: Option<int>)
    ensures OfHeight(SortByHeight(s), h) == OfHeight(s, h)
    decreases |s|
  {
    if s != [] {
      SortStable(s[1..], h);
      InsertStable(s[0], SortByHeight(s[1..]), h);
      assert s == [s[0]] + s[1..];
      OfHeightAppend([s[0]], s[1..], h);
    }
  }

  /** `formats`: the eligible formats, highest first. */
  function VideoFormats(formats: seq<Format>): (r: seq<Format>)
    ensures forall i :: 0 <= i < |r| ==> Eligible(r[i])
    ensures NonIncreasing(r)
    ensures multiset(r) == multiset(Filter(formats, Eligible))
  {
    var eligible := Filter(formats, Eligible);
    var r := SortByHeight(eligible);
    assert forall i :: 0 <= i < |r| ==> r[i] in multiset(eligible);
    r
  }

  /** The formats that survive the filter are exactly the eligible ones of
      the input: video formats, mp4, not "audio only", at a common height. */
  lemma VideoFormatsMembers(formats: seq<Format>)
    ensures forall f :: f in VideoFormats(formats) <==> f in formats && Eligible(f)
  {
    var r := VideoFormats(formats);
    var e := Filter(formats, Eligible);
    forall f
      ensures f in r <==> f in e
    {
      assert f in r <==> f in multiset(r);
      assert f in e <==> f in multiset(e);
    }
  }

  /** The filtered list is sorted by height, highest first, and the formats
      of each height keep their order in the extractor's list. */
  lemma VideoFormatsOrder(formats: seq<Format>, h: Option<int>)
    ensures NonIncreasing(VideoFormats(formats))
    ensures OfHeight(VideoFormats(formats), h) == OfHeight(Filter(formats, Eligible), h)
  {
    SortStable(Filter(formats, Eligible), h);
  }

  // ---------------------------------------------------------------------------
  // Deduplication by height

  /** The codec test of the dedupe reduce: mp4 with an avc1 or h264 codec. */
  predicate Preferred(f: Format)
  {
    f.ext == "mp4" && (f.vcodec == "avc1" || f.vcodec == "h264")
  }

  /** `acc.find(item => item.height === current.height)`, as an index: the
      first entry with that height, or None. */
  function FindHeight(acc: seq<Format>, h: Option<int>): (i: Option<nat>)
    ensures i.Some? ==> i.value < |acc| && acc[i.value].height == h
    ensures i.Some? ==> forall j :: 0 <= j < i.value ==> acc[j].height != h
    ensures i.None? ==> forall j :: 0 <= j < |acc| ==> acc[j].height != h
  {
    if acc == [] then None
    else if acc[0].height == h then Some(0)
    else match FindHeight(acc[1..], h)
      case None => None
      case Some(k) => Some(k + 1)
  }

  /** One step of the dedupe reduce: append a new height; for a repeated
      height, overwrite the entry when `current` is preferred. */
  function DedupeStep(acc: seq<Format>, current: Format): seq<Format>
  {
    match FindHeight(acc, current.height)
    case None => acc + [current]
    case Some(i) => if Preferred(current) then acc[i := current] else acc
  }

  /** `uniqueFormats`: the reduce over `formats`, written on its prefixes. */
  function Dedupe(s: seq<Format>): seq<Format>
    decreases |s|
  {
    if s == [] then []
    else DedupeStep(Dedupe(s[..|s| - 1]), s[|s| - 1])
  }

  /** Which of the formats sharing one height the dedupe keeps. */
  function Winner(t: seq<Format>): Format
    requires |t| > 0
    decreases |t|
  {
    if |t| == 1 then t[0]
    else if Preferred(t[|t| - 1]) then t[|t| - 1]
    else Winner(t[..|t| - 1])
  }

  /** The kept format is the last preferred one after the first, or the first
      when no later one is preferred. */
  lemma {:induction false} WinnerIsLastPreferred(t: seq<Format>)
    requires |t| > 0
    ensures exists j :: 0 <= j < |t| && Winner(t) == t[j] && (j == 0 || Preferred(t[j])) &&
              forall k :: j < k < |t| ==> !Preferred(t[k])
    decreases |t|
  {
    if |t| == 1 {
      assert Winner(t) == t[0];
    } else if Preferred(t[|t| - 1]) {
      assert Winner(t) == t[|t| - 1];
    } else {
      var p := t[..|t| - 1];
      WinnerIsLastPreferred(p);
      var j :| 0 <= j < |p| && Winner(p) == p[j] && (j == 0 || Preferred(p[j])) &&
               forall k :: j < k < |p| ==> !Preferred(p[k]);
      assert Winner(t) == t[j];
      assert forall k :: j < k < |t| ==> !Preferred(t[k]) by {
        forall k | j < k < |t| ensures !Preferred(t[k]) {
          if k < |p| { assert t[k] == p[k]; }
        }
      }
    }
  }

  /** No two entries share a height. */
  predicate DistinctHeights(s: seq<Format>)
  {
    forall i, j :: 0 <= i < j < |s| ==> s[i].height != s[j].height
  }

  /** The dedupe reduce, as the source runs it: `acc` is overwritten in place
      at the index `find` located. */
  method DedupeByHeight(formats: seq<Format>) returns (acc: seq<Format>)
    ensures acc == Dedupe(formats)
  {
    acc := [];
    var n := 0;
    while n < |formats|
      invariant 0 <= n <= |formats|
      invariant acc == Dedupe(formats[..n])
    {
      var current := formats[n];
      var index := 0;
      while index < |acc| && acc[index].height != current.height
        invariant 0 <= index <= |acc|
        invariant forall j :: 0 <= j < index ==> acc[j].height != current.height
      {
        index := index + 1;
      }
      assert formats[..n + 1][..n] == formats[..n];
      if index == |acc| {
        acc := acc + [current];
      } else if Preferred(current) {
        acc := acc[index := current];
      }
      n := n + 1;
    }
    assert formats[..n] == formats;
  }

  /** The heights occurring in a list. */
  function Heights(s: seq<Format>): set<Option<int>>
  {
    set i | 0 <= i < |s| :: s[i].height
  }

  /** Appending one format adds its height. */
  lemma HeightsAppend(p: seq<Format>, c: Format)
    ensures Heights(p + [c]) == Heights(p) + {c.height}
  {
    var s := p + [c];
    forall h | h in Heights(s) ensures h in Heights(p) + {c.height} {
      var i :| 0 <= i < |s| && s[i].height == h;
      if i < |p| { assert s[i] == p[i]; }
    }
    forall h | h in Heights(p) + {c.height} ensures h in Heights(s) {
      if h in Heights(p) {
        var i :| 0 <= i < |p| && p[i].height == h;
        assert s[i] == p[i];
      } else {
        assert s[|p|] == c;
      }
    }
  }

  /** Some format of `s` has height `h` exactly when OfHeight finds one. */
  lemma {:induction false} OfHeightNonEmpty(s: seq<Format>, h: Option<int>)
    ensures OfHeight(s, h) != [] <==> h in Heights(s)
    decreases |s|
  {
    if s != [] {
      OfHeightNonEmpty(s[1..], h);
      assert Heights(s) == {s[0].height} + Heights(s[1..]) by {
        assert s == [s[0]] + s[1..];
        forall g | g in Heights(s) ensures g in {s[0].height} + Heights(s[1..]) {
          var i :| 0 <= i < |s| && s[i].height == g;
          if i > 0 { assert s[1..][i - 1] == s[i]; }
        }
        forall g | g in Heights(s[1..]) ensures g in Heights(s) {
          var i :| 0 <= i < |s[1..]| && s[1..][i].height == g;
          assert s[i + 1] == s[1..][i];
        }
      }
    }
  }

  /** OfHeight of a list extended by one format. */
  lemma OfHeightSnoc(p: seq<Format>, c: Format, h: Option<int>)
    ensures OfHeight(p + [c], h) == OfHeight(p, h) + (if c.height == h then [c] else [])
  {
    OfHeightAppend(p, [c], h);
    assert OfHeight([c], h) == (if c.height == h then [c] else []) + OfHeight([], h) by {
      assert [c][1..] == [];
    }
  }

  /** The winner of a group extended by one format. */
  lemma WinnerSnoc(t: seq<Format>, c: Format)
    requires |t| > 0
    ensures Winner(t + [c]) == if Preferred(c) then c else Winner(t)
  {
    assert (t + [c])[..|t|] == t;
  }

  /** What the dedupe keeps after reading the list `p`: one entry per height
      of `p`, each taken from `p` and the winner of its height's group. */
  ghost predicate DedupeInv(acc: seq<Format>, p: seq<Format>)
  {
    && DistinctHeights(acc)
    && (forall i :: 0 <= i < |acc| ==> acc[i] in p)
    && Heights(acc) == Heights(p)
    && forall i :: 0 <= i < |acc| ==>
         OfHeight(p, acc[i].height) != [] && acc[i] == Winner(OfHeight(p, acc[i].height))
  }

  /** A new height is appended: the invariant holds of the longer lists. */
  lemma StepAppendInv(acc: seq<Format>, p: seq<Format>, c: Format)
    requires DedupeInv(acc, p)
    requires forall j :: 0 <= j < |acc| ==> acc[j].height != c.height
    ensures DedupeInv(acc + [c], p + [c])
  {
    var s := p + [c];
    var r := acc + [c];
    HeightsAppend(p, c);
    HeightsAppend(acc, c);
    assert DistinctHeights(r);
    assert forall i :: 0 <= i < |r| ==> r[i] in s;
    OfHeightNonEmpty(p, c.height);
    OfHeightSnoc(p, c, c.height);
    assert OfHeight(s, c.height) == [c];
    forall i | 0 <= i < |r|
      ensures OfHeight(s, r[i].height) != [] && r[i] == Winner(OfHeight(s, r[i].height))
    {
      if i < |acc| {
        assert r[i] == acc[i];
        OfHeightSnoc(p, c, acc[i].height);
        assert OfHeight(s, acc[i].height) == OfHeight(p, acc[i].height);
      } else {
        assert r[i] == c;
        assert Winner([c]) == c;
      }
    }
  }

  /** A preferred format replaces the entry of its height. */
  lemma StepReplaceInv(acc: seq<Format>, p: seq<Format>, c: Format, k: nat)
    requires DedupeInv(acc, p)
    requires k < |acc| && acc[k].height == c.height && Preferred(c)
    ensures DedupeInv(acc[k := c], p + [c])
  {
    var s := p + [c];
    var r := acc[k := c];
    HeightsAppend(p, c);
    assert c.height in Heights(acc);
    assert Heights(r) == Heights(acc) by {
      forall h | h in Heights(r) ensures h in Heights(acc) {
        var i :| 0 <= i < |r| && r[i].height == h;
        if i != k { assert r[i] == acc[i]; } else { assert acc[k].height == h; }
      }
      forall h | h in Heights(acc) ensures h in Heights(r) {
        var i :| 0 <= i < |acc| && acc[i].height == h;
        if i != k { assert r[i] == acc[i]; } else { assert r[k].height == h; }
      }
    }
    assert DistinctHeights(r) by {
      forall i, j | 0 <= i < j < |r| ensures r[i].height != r[j].height {
        assert acc[i].height != acc[j].height;
      }
    }
    forall i | 0 <= i < |r|
      ensures OfHeight(s, r[i].height) != [] && r[i] == Winner(OfHeight(s, r[i].height))
    {
      OfHeightSnoc(p, c, r[i].height);
      if i == k {
        WinnerSnoc(OfHeight(p, c.height), c);
      } else {
        assert acc[i].height != acc[k].height;
        assert r[i] == acc[i];
        assert OfHeight(s, acc[i].height) == OfHeight(p, acc[i].height);
      }
    }
  }

  /** A format of a known height that is not preferred changes nothing. */
  lemma StepKeepInv(acc: seq<Format>, p: seq<Format>, c: Format, k: nat)
    requires DedupeInv(acc, p)
    requires k < |acc| && acc[k].height == c.height && !Preferred(c)
    ensures DedupeInv(acc, p + [c])
  {
    var s := p + [c];
    HeightsAppend(p, c);
    assert c.height in Heights(acc);
    forall i | 0 <= i < |acc|
      ensures OfHeight(s, acc[i].height) != [] && acc[i] == Winner(OfHeight(s, acc[i].height))
    {
      OfHeightSnoc(p, c, acc[i].height);
      if acc[i].height == c.height {
        WinnerSnoc(OfHeight(p, c.height), c);
      } else {
        assert OfHeight(s, acc[i].height) == OfHeight(p, acc[i].height);
      }
    }
  }

  /** One step of the reduce keeps DedupeInv. */
  lemma DedupeStepInv(acc: seq<Format>, p: seq<Format>, c: Format)
    requires DedupeInv(acc, p)
    ensures DedupeInv(DedupeStep(acc, c), p + [c])
  {
    match FindHeight(acc, c.height)
    case None =>
      StepAppendInv(acc, p, c);
    case Some(k) =>
      if Preferred(c) {
        StepReplaceInv(acc, p, c, k);
      } else {
        StepKeepInv(acc, p, c, k);
      }
  }

  /** The reduce keeps DedupeInv over the whole list. */
  lemma {:induction false} DedupeKeepsInv(s: seq<Format>)
    ensures DedupeInv(Dedupe(s), s)
    decreases |s|
  {
    if s == [] {
      assert Heights(s) == {};
      assert Heights(Dedupe(s)) == {};
    } else {
      var p := s[..|s| - 1];
      DedupeKeepsInv(p);
      assert s == p + [s[|s| - 1]];
      DedupeStepInv(Dedupe(p), p, s[|s| - 1]);
    }
  }

  /** On a list sorted by height, the dedupe output is sorted too. */
  lemma {:induction false} DedupeKeepsOrder(s: seq<Format>)
    requires NonIncreasing(s)
    ensures NonIncreasing(Dedupe(s))
    decreases |s|
  {
    if s != [] {
      var p := s[..|s| - 1];
      var c := s[|s| - 1];
      assert NonIncreasing(p);
      DedupeKeepsOrder(p);
      DedupeKeepsInv(p);
      var acc := Dedupe(p);
      forall i | 0 <= i < |acc| ensures HeightOf(acc[i]) >= HeightOf(c) {
        var j :| 0 <= j < |p| && p[j] == acc[i];
      }
    }
  }

  /** A list with distinct heights has as many heights as entries. */
  lemma {:induction false} DistinctHeightsCount(s: seq<Format>)
    requires DistinctHeights(s)
    ensures |Heights(s)| == |s|
    decreases |s|
  {
    if s == [] {
      assert Heights(s) == {};
    } else {
      var p := s[..|s| - 1];
      var c := s[|s| - 1];
      assert s == p + [c];
      DistinctHeightsCount(p);
      HeightsAppend(p, c);
      assert c.height !in Heights(p);
    }
  }

  /** A subset has no more elements than its superset. */
  lemma {:induction false} SubsetCount(a: set<Option<int>>, b: set<Option<int>>)
    requires a <= b
    ensures |a| <= |b|
    decreases |b|
  {
    if b != {} {
      var x :| x in b;
      SubsetCount(a - {x}, b - {x});
    }
  }

  /** Deduplicating formats at common heights leaves at most one entry per
      height, so at most four entries. */
  lemma DedupeAtMostFour(v: seq<Format>)
    requires forall i :: 0 <= i < |v| ==> Eligible(v[i])
    ensures DistinctHeights(Dedupe(v))
    ensures |Dedupe(v)| <= 4
  {
    var u := Dedupe(v);
    DedupeKeepsInv(v);
    DistinctHeightsCount(u);
    var common := {Some(1080), Some(720), Some(480), Some(360)};
    forall h | h in Heights(u) ensures h in common {
      assert h in Heights(v);
      var j :| 0 <= j < |v| && v[j].height == h;
      assert Eligible(v[j]);
    }
    SubsetCount(Heights(u), common);
  }

  /** Each entry the dedupe keeps is the winner of its height's group. */
  lemma DedupeWinners(v: seq<Format>)
    ensures Heights(Dedupe(v)) == Heights(v)
    ensures forall f :: f in Dedupe(v) ==> f in v
    ensures forall f :: f in Dedupe(v) ==> OfHeight(v, f.height) != [] && f == Winner(OfHeight(v, f.height))
  {
    DedupeKeepsInv(v);
  }

  /** `uniqueFormats` has at most one entry per height, so at most four
      entries, and is sorted by height, highest first. */
  lemma UniqueFormatsShape(formats: seq<Format>)
    ensures DistinctHeights(Dedupe(VideoFormats(formats)))
    ensures |Dedupe(VideoFormats(formats))| <= 4
    ensures NonIncreasing(Dedupe(VideoFormats(formats)))
  {
    DedupeAtMostFour(VideoFormats(formats));
    DedupeKeepsOrder(VideoFormats(formats));
  }

  /** Every height of the filtered list is in `uniqueFormats`, and each
      entry is an eligible format of the extractor's list: the winner of its
      height's group taken in the extractor's order (the last preferred one
      after the first, or else the first). */
  lemma UniqueFormatsChoice(formats: seq<Format>)
    ensures Heights(Dedupe(VideoFormats(formats))) == Heights(VideoFormats(formats))
    ensures forall f :: f in Dedupe(VideoFormats(formats)) ==> f in formats && Eligible(f)
    ensures forall f :: f in Dedupe(VideoFormats(formats)) ==>
              OfHeight(Filter(formats, Eligible), f.height) != [] &&
              f == Winner(OfHeight(Filter(formats, Eligible), f.height))
  {
    var v := VideoFormats(formats);
    DedupeWinners(v);
    VideoFormatsMembers(formats);
    forall f | f in Dedupe(v)
      ensures OfHeight(Filter(formats, Eligible), f.height) != [] &&
              f == Winner(OfHeight(Filter(formats, Eligible), f.height))
    {
      VideoFormatsOrder(formats, f.height);
    }
  }

  // ---------------------------------------------------------------------------
  // formatFileSize

  /** The unit names, indexed by unitIndex. */
  const Units: seq<string> := ["B", "KB", "MB", "GB"]

  /** 1024 to the power k. */
  function Pow1024(k: nat): real
  {
    if k == 0 then 1.0 else 1024.0 * Pow1024(k - 1)
  }

  /** The unit-selection loop from (size, unit): divide by 1024 while the size
      is at least 1024 and the unit is below GB. */
  function Scale(size: real, unit: nat): (r: (real, nat))
    requires unit <= 3
    ensures unit <= r.1 <= 3
    ensures r.0 * Pow1024(r.1 - unit) == size
    ensures r.1 < 3 ==> r.0 < 1024.0
    ensures r.1 > unit ==> r.0 >= 1.0
    decreases 3 - unit
  {
    if size >= 1024.0 && unit < 3 then
      var r := Scale(size / 1024.0, unit + 1);
      assert Pow1024(r.1 - unit) == 1024.0 * Pow1024(r.1 - (unit + 1));
      r
    else
      (size, unit)
  }

  /** `amount` is `x` bytes expressed in unit `k`, as the loop leaves it:
      below 1024 unless in GB, and at least 1 unless in bytes. */
  predicate InUnit(amount: real, k: int, x: real)
  {
    && 0 <= k < |Units|
    && amount * Pow1024(k) == x
    && (k < 3 ==> amount < 1024.0)
    && (k > 0 ==> amount >= 1.0)
  }

  /** Scaling from bytes ends at one of the four units, with the amount in
      that unit. */
  lemma ScaleFromBytes(x: real)
    ensures InUnit(Scale(x, 0).0, Scale(x, 0).1, x)
  {
    var r := Scale(x, 0);
    assert Pow1024(r.1 - 0) == Pow1024(r.1);
  }

  /** formatFileSize: "Size unavailable" for a falsy (zero or NaN) size,
      otherwise the size in the largest unit up to GB that keeps it at
      least 1, and a '~' when estimated. */
  function FileSizeText(bytes: Option<int>, estimated: bool): (t: SizeText)
    ensures t.SizeUnavailable? <==> !Truthy(bytes)
    ensures t.Prefix() == "~" <==> Truthy(bytes) && estimated
    ensures t.SizeShown? ==>
              exists k :: InUnit(t.amount, k, bytes.value as real) && t.unit == Units[k]
  {
    if !Truthy(bytes) then SizeUnavailable
    else
      var r := Scale(bytes.value as real, 0);
      ScaleFromBytes(bytes.value as real);
      SizeShown(estimated, r.0, Units[r.1])
  }

  /** formatFileSize as the source runs it, with its while loop. */
  method FormatFileSize(bytes: Option<int>, estimated: bool) returns (t: SizeText)
    ensures t == FileSizeText(bytes, estimated)
  {
    if !Truthy(bytes) {
      return SizeUnavailable;
    }
    var size: real := bytes.value as real;
    var unitIndex: nat := 0;
    while size >= 1024.0 && unitIndex < |Units| - 1
      invariant unitIndex <= 3
      invariant Scale(size, unitIndex) == Scale(bytes.value as real, 0)
      decreases 3 - unitIndex
    {
      size := size / 1024.0;
      unitIndex := unitIndex + 1;
    }
    t := SizeShown(estimated, size, Units[unitIndex]);
  }

  // ---------------------------------------------------------------------------
  // Quality options

  /** `bestAudioFormat?.tbr || 128`: the audio bitrate assumed for estimates. */
  function AudioBitrate(best: Option<Format>): int
  {
    if best.Some? && Truthy(best.value.tbr) then best.value.tbr.value else 128
  }

  /** `bitrateMap[format.height] || 1000`: the fallback video bitrate. */
  function FallbackBitrate(height: Option<int>): (rate: int)
    ensures height == Some(1080) ==> rate == 8000
    ensures height == Some(720) ==> rate == 5000
    ensures height == Some(480) ==> rate == 2500
    ensures height !in {Some(1080), Some(720), Some(480)} ==> rate == 1000
  {
    match height
    case Some(1080) => 8000
    case Some(720) => 5000
    case Some(480) => 2500
    case Some(360) => 1000
    case _ => 1000
  }

  /** The size of one option and whether it is an estimate. */
  datatype SizeEstimate = SizeEstimate(total: Option<int>, estimated: bool)

  /** The three-way size choice: the format's own positive filesize plus the
      audio size; else an estimate from its bitrate plus the audio bitrate;
      and whenever that total is falsy, the table estimate. A size that is
      NaN in the source is None. */
  function EstimateSize(f: Format, best: Option<Format>, audioSize: Option<int>, duration: Option<int>): (e: SizeEstimate)
    ensures !e.estimated <==>
              f.filesize.Some? && f.filesize.value > 0 && audioSize.Some? && f.filesize.value + audioSize.value != 0
    ensures !e.estimated ==> e.total == Some(f.filesize.value + audioSize.value)
    ensures duration.Some? && audioSize.Some? ==> e.total.Some?
  {
    var first :=
      if f.filesize.Some? && f.filesize.value > 0 then
        SizeEstimate(if audioSize.Some? then Some(f.filesize.value + audioSize.value) else None, false)
      else if Truthy(f.tbr) && Truthy(duration) then
        SizeEstimate(Some((f.tbr.value + AudioBitrate(best)) * 128 * duration.value), true)
      else
        SizeEstimate(None, false);
    if Truthy(first.total) then first
    else
      SizeEstimate(
        if duration.Some? then Some((FallbackBitrate(f.height) + 128) * 128 * duration.value) else None,
        true)
  }

  /** The label heading: "<height>p", with " <fps>fps" only above 30 fps. */
  function Heading(f: Format): string
  {
    IntToString(HeightOf(f)) + "p" +
    (if f.fps.Some? && f.fps.value > 30 then " " + IntToString(f.fps.value) + "fps" else "")
  }

  /** The map callback: one quality option for one unique format. */
  function OptionFor(f: Format, best: Option<Format>, audioSize: Option<int>, duration: Option<int>): QualityOption
  {
    var e := EstimateSize(f, best, audioSize, duration);
    QualityOption(
      f.formatId,
      IntToString(HeightOf(f)) + "p",
      if Truthy(f.fps) then f.fps.value else 30,
      e.total,
      f.vcodec,
      f.acodec,
      f.ext,
      Label(Heading(f), FileSizeText(e.total, e.estimated)))
  }

  /** The map over `uniqueFormats`. */
  function OptionsFor(unique: seq<Format>, best: Option<Format>, audioSize: Option<int>, duration: Option<int>): seq<QualityOption>
  {
    seq(|unique|, i requires 0 <= i < |unique| => OptionFor(unique[i], best, audioSize, duration))
  }

  /** `qualityOptions` for the extractor's output. */
  function QualityOptions(v: VideoData): seq<QualityOption>
  {
    var best := BestAudio(v.formats);
    OptionsFor(Dedupe(VideoFormats(v.formats)), best, AudioSize(best, v.duration), v.duration)
  }

  /** The map gives one option per format, in order, carrying the format's
      id, codecs and container and showing its height. */
  lemma OptionsForFields(unique: seq<Format>, best: Option<Format>, audioSize: Option<int>, duration: Option<int>)
    ensures |OptionsFor(unique, best, audioSize, duration)| == |unique|
    ensures forall i :: 0 <= i < |unique| ==>
              var f := unique[i];
              var o := OptionsFor(unique, best, audioSize, duration)[i];
              && o.formatId == f.formatId && o.vcodec == f.vcodec && o.acodec == f.acodec && o.ext == f.ext
              && o.resolution == IntToString(HeightOf(f)) + "p"
  {
  }

  /** The decimal rendering is one-to-one. */
  lemma {:induction false} NatToStringInjective(a: nat, b: nat)
    requires NatToString(a) == NatToString(b)
    ensures a == b
    decreases a
  {
    var sa, sb := NatToString(a), NatToString(b);
    if a >= 10 {
      assert |NatToString(a / 10)| >= 1;
    }
    if b >= 10 {
      assert |NatToString(b / 10)| >= 1;
    }
    assert sa[|sa| - 1] == "0123456789"[a % 10];
    assert sb[|sb| - 1] == "0123456789"[b % 10];
    assert a % 10 == b % 10;
    if a >= 10 && b >= 10 {
      assert NatToString(a / 10) == sa[..|sa| - 1] == sb[..|sb| - 1] == NatToString(b / 10);
      NatToStringInjective(a / 10, b / 10);
    }
  }

  /** One option keeps the format's id and codecs, shows "<height>p",
      defaults fps to 30, and labels the size it carries; its heading shows
      " <fps>fps" only above 30 fps. */
  lemma OptionForSpec(f: Format, best: Option<Format>, audioSize: Option<int>, duration: Option<int>)
    requires f.height.Some?
    ensures var o := OptionFor(f, best, audioSize, duration);
      && o.formatId == f.formatId && o.vcodec == f.vcodec && o.acodec == f.acodec && o.ext == f.ext
      && o.resolution == IntToString(f.height.value) + "p"
      && o.fps == (if Truthy(f.fps) then f.fps.value else 30)
      && o.optionLabel.heading ==
           o.resolution + (if f.fps.Some? && f.fps.value > 30 then " " + IntToString(f.fps.value) + "fps" else "")
      && o.optionLabel.size == FileSizeText(o.filesize, EstimateSize(f, best, audioSize, duration).estimated)
  {
  }

  /** `qualityOptions` maps `uniqueFormats` one to one and in order: option
      `i` carries the id, codecs and container of unique format `i` and shows
      its height; so there are at most four options. */
  lemma QualityOptionsMap(v: VideoData)
    ensures |QualityOptions(v)| == |Dedupe(VideoFormats(v.formats))| <= 4
    ensures forall i :: 0 <= i < |QualityOptions(v)| ==>
              var f := Dedupe(VideoFormats(v.formats))[i];
              var o := QualityOptions(v)[i];
              && o.formatId == f.formatId && o.vcodec == f.vcodec && o.acodec == f.acodec && o.ext == f.ext
              && o.resolution == IntToString(HeightOf(f)) + "p"
  {
    var best := BestAudio(v.formats);
    OptionsForFields(Dedupe(VideoFormats(v.formats)), best, AudioSize(best, v.duration), v.duration);
    UniqueFormatsShape(v.formats);
  }

  /** Options for formats of distinct, non-negative heights, each showing
      "<height>p" of its format, have distinct resolutions. */
  lemma DistinctRenderings(u: seq<Format>, r: seq<QualityOption>)
    requires |r| == |u| && DistinctHeights(u)
    requires forall i :: 0 <= i < |u| ==> u[i].height.Some? && u[i].height.value >= 0
    requires forall i :: 0 <= i < |u| ==> r[i].resolution == IntToString(HeightOf(u[i])) + "p"
    ensures forall i, j :: 0 <= i < j < |r| ==> r[i].resolution != r[j].resolution
  {
    forall i, j | 0 <= i < j < |r| ensures r[i].resolution != r[j].resolution {
      var a, b := NatToString(u[i].height.value), NatToString(u[j].height.value);
      assert r[i].resolution == a + "p" && r[j].resolution == b + "p";
      if a + "p" == b + "p" {
        assert a == (a + "p")[..|a|];
        assert b == (b + "p")[..|b|];
        NatToStringInjective(u[i].height.value, u[j].height.value);
        assert false;
      }
    }
  }

  /** The unique formats have distinct, known, non-negative heights. */
  lemma UniqueHeightsKnown(formats: seq<Format>)
    ensures DistinctHeights(Dedupe(VideoFormats(formats)))
    ensures forall i :: 0 <= i < |Dedupe(VideoFormats(formats))| ==>
              Dedupe(VideoFormats(formats))[i].height.Some? && Dedupe(VideoFormats(formats))[i].height.value >= 0
  {
    var u := Dedupe(VideoFormats(formats));
    UniqueFormatsShape(formats);
    UniqueFormatsChoice(formats);
    assert forall i :: 0 <= i < |u| ==> u[i] in u;
  }

  /** No two options share a resolution. */
  lemma QualityOptionsDistinctResolutions(v: VideoData)
    ensures forall i, j :: 0 <= i < j < |QualityOptions(v)| ==>
              QualityOptions(v)[i].resolution != QualityOptions(v)[j].resolution
  {
    var u := Dedupe(VideoFormats(v.formats));
    var best := BestAudio(v.formats);
    UniqueHeightsKnown(v.formats);
    OptionsForFields(u, best, AudioSize(best, v.duration), v.duration);
    DistinctRenderings(u, OptionsFor(u, best, AudioSize(best, v.duration), v.duration));
  }

  /** The size is chosen in order. With a known duration `d`: a positive
      filesize plus the audio size, not estimated; else, with a truthy bitrate
      and a non-zero duration, the bitrate plus the audio bitrate (128 when
      unknown) over the duration, estimated; whenever neither gives a truthy
      total, the table bitrate plus 128 kbps, estimated. With the duration
      missing, every size except the filesize total is NaN (None), estimated. */
  lemma SizeChoice(f: Format, best: Option<Format>, audioSize: Option<int>, d: int)
    ensures f.filesize.Some? && f.filesize.value > 0 && audioSize.Some? && f.filesize.value + audioSize.value != 0 ==>
              EstimateSize(f, best, audioSize, Some(d)) == SizeEstimate(Some(f.filesize.value + audioSize.value), false)
    ensures !(f.filesize.Some? && f.filesize.value > 0) && Truthy(f.tbr) && d != 0 &&
            (f.tbr.value + AudioBitrate(best)) != 0 ==>
              EstimateSize(f, best, audioSize, Some(d)) ==
                SizeEstimate(Some((f.tbr.value + AudioBitrate(best)) * 128 * d), true)
    ensures !(f.filesize.Some? && f.filesize.value > 0 && audioSize.Some? && f.filesize.value + audioSize.value != 0) &&
            !(!(f.filesize.Some? && f.filesize.value > 0) && Truthy(f.tbr) && d != 0 &&
              (f.tbr.value + AudioBitrate(best)) != 0) ==>
              EstimateSize(f, best, audioSize, Some(d)) ==
                SizeEstimate(Some((FallbackBitrate(f.height) + 128) * 128 * d), true)
    ensures !(f.filesize.Some? && f.filesize.value > 0 && audioSize.Some? && f.filesize.value + audioSize.value != 0) ==>
              EstimateSize(f, best, audioSize, None) == SizeEstimate(None, true)
  {
    if !(f.filesize.Some? && f.filesize.value > 0) && Truthy(f.tbr) && d != 0 && (f.tbr.value + AudioBitrate(best)) != 0 {
      var x := f.tbr.value + AudioBitrate(best);
      assert x * 128 * d != 0 by {
        assert x * 128 != 0;
      }
    }
  }

  /** A missing duration shows "Size unavailable" unless the format's own
      filesize gives the total. */
  lemma MissingDurationUnavailable(f: Format, best: Option<Format>, audioSize: Option<int>)
    requires !(f.filesize.Some? && f.filesize.value > 0 && audioSize.Some? && f.filesize.value + audioSize.value != 0)
    ensures OptionFor(f, best, audioSize, None).filesize == None
    ensures OptionFor(f, best, audioSize, None).optionLabel.size == SizeUnavailable
  {
    SizeChoice(f, best, audioSize, 0);
  }

  // ---------------------------------------------------------------------------
  // The handler

  /** The message of the 400 response. */
  const UrlRequired: string := "YouTube URL is required"

  /** POST: `body` is the parsed request body's `url` (None when absent) or
      the parse error; `extractor` stands for the extractor call, returning
      the video data or the error it throws. */
  function Post(body: Result<Option<string>>, extractor: string -> Result<VideoData>): (r: Response)
    ensures body.Success? && (body.value.None? || body.value.value == "") ==> r == ErrorResponse(400, UrlRequired)
    ensures r.Options? ==>
              && body.Success? && body.value.Some? && body.value.value != ""
              && extractor(body.value.value).Success?
              && r.qualityOptions == QualityOptions(extractor(body.value.value).value)
    ensures body.Success? && body.value.Some? && body.value.value != "" && extractor(body.value.value).Success? ==>
              r == Options(QualityOptions(extractor(body.value.value).value))
    ensures r.ErrorResponse? && r.status == 500 <==>
              body.Failure? || (body.value.Some? && body.value.value != "" && extractor(body.value.value).Failure?)
  {
    match body
    case Failure(message) => ErrorResponse(500, "Error fetching formats: " + message)
    case Success(url) =>
      if url.None? || url.value == "" then ErrorResponse(400, UrlRequired)
      else
        match extractor(url.value)
        case Failure(message) => ErrorResponse(500, "Error fetching formats: " + message)
        case Success(v) => Options(QualityOptions(v))
  }

  /** A missing or empty url is answered with 400 whatever the extractor
      would do: the extractor is never consulted. */
  lemma MissingUrlIgnoresExtractor(url: Option<string>, e1: string -> Result<VideoData>, e2: string -> Result<VideoData>)
    requires url.None? || url.value == ""
    ensures Post(Success(url), e1) == Post(Success(url), e2) == ErrorResponse(400, UrlRequired)
  {
  }
}

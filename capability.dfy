/** The format capability table (`support`, src/index.js:46-76): per media
    category, the formats the browser says it can play, ranked. The
    browser's `canPlayType` is an injected oracle from MIME strings to its
    answer ("", "no", "maybe", "probably", ...); an element without
    `canPlayType` is `None`. */
module Capability {
  import opened Js

  datatype Category = Audio | Video

  /** A candidate format: its extension and the codec-qualified MIME
      suffixes tried for it, in order. */
  datatype Candidate = Candidate(ext: string, codecs: seq<string>)

  /** What the builder records for one category: the ranking (`arr` as an
      array) and the answer stored under each extension (`arr[ext]`). */
  datatype Capability = Capability(ranking: seq<string>, answers: map<string, Value>)

  /** The table for both categories (`support.audio`, `support.video`). */
  datatype Support = Support(audio: Capability, video: Capability)

  function TagName(c: Category): string {
    match c
    case Audio => "audio"
    case Video => "video"
  }

  /** The fixed candidates, in the order `for...in` visits them. */
  function Candidates(c: Category): seq<Candidate> {
    match c
    case Audio => [
      Candidate("m4a", ["aac;", "x-m4a;"]),
      Candidate("wav", ["mpeg;"]),
      Candidate("ogg", ["ogg;codecs=\"vorbis\""]),
      Candidate("opus", ["ogg;codecs=\"opus\""]),
      Candidate("mp3", ["mpeg;"])]
    case Video => [
      Candidate("ogg", ["ogg;codecs=\"theora\""]),
      Candidate("webm", ["webm;codecs=\"vp8,vorbis\""]),
      Candidate("mp4", ["mp4;codecs=\"avc1.42E01E\""])]
  }

  /** `support[name]`. */
  function RankingFor(support: Support, c: Category): seq<string> {
    match c
    case Audio => support.audio.ranking
    case Video => support.video.ranking
  }

  /** `'no' !== can && can`: the browser's answer when it is neither "" nor
      "no", otherwise a falsy value. */
  function Probe(canPlay: string -> string, mime: string): Value {
    var can := canPlay(mime);
    if can != "" && can != "no" then Str(can) else Null
  }

  /** The inner `deduce` over a candidate's codec strings: the first usable
      answer, trying them in order. */
  function FirstUsable(canPlay: string -> string, prefix: string, codecs: seq<string>): Value
    decreases |codecs|
  {
    if codecs == [] then Null
    else if Truthy(Probe(canPlay, prefix + codecs[0])) then Probe(canPlay, prefix + codecs[0])
    else FirstUsable(canPlay, prefix, codecs[1..])
  }

  /** `FirstUsable` is `deduce` over the codec strings with the probing
      callback. */
  lemma {:induction false} FirstUsableIsDeduce(canPlay: string -> string, prefix: string, codecs: seq<string>)
    ensures FirstUsable(canPlay, prefix, codecs) == Deduce(codecs, (codec: string) => Probe(canPlay, prefix + codec))
    decreases |codecs|
  {
    if codecs != [] {
      FirstUsableIsDeduce(canPlay, prefix, codecs[1..]);
    }
  }

  function Answer(canPlay: string -> string, prefix: string, c: Candidate): Value {
    FirstUsable(canPlay, prefix, c.codecs)
  }

  /** One candidate's effect on the ranking: "maybe" is pushed to the back,
      any other usable answer is unshifted to the front. */
  function Place(ranking: seq<string>, ext: string, answer: Value): seq<string> {
    if !Truthy(answer) then ranking
    else if answer == Str("maybe") then ranking + [ext]
    else [ext] + ranking
  }

  /** The ranking after the candidates of `table` have been probed in order. */
  function RankingOf(canPlay: string -> string, prefix: string, table: seq<Candidate>): seq<string>
    decreases |table|
  {
    if table == [] then []
    else
      var last := table[|table| - 1];
      Place(RankingOf(canPlay, prefix, table[..|table| - 1]), last.ext, Answer(canPlay, prefix, last))
  }

  /** The `arr[ext]` properties after probing `table`: the usable answer, or
      `false` once some codec string was tried without one. */
  function AnswersOf(canPlay: string -> string, prefix: string, table: seq<Candidate>): map<string, Value>
    decreases |table|
  {
    if table == [] then map[]
    else
      var last := table[|table| - 1];
      var m := AnswersOf(canPlay, prefix, table[..|table| - 1]);
      var a := Answer(canPlay, prefix, last);
      if last.codecs == [] then m else m[last.ext := if Truthy(a) then a else Bool(false)]
  }

  /** The inner `deduce` from codec string `j` on: that string's answer when
      it is usable, otherwise the answer from the next string on. */
  lemma FirstUsableStep(canPlay: string -> string, prefix: string, codecs: seq<string>, j: int)
    requires 0 <= j < |codecs|
    ensures FirstUsable(canPlay, prefix, codecs[j..]) ==
      if Truthy(Probe(canPlay, prefix + codecs[j])) then Probe(canPlay, prefix + codecs[j])
      else FirstUsable(canPlay, prefix, codecs[j + 1..])
  {
    assert codecs[j..][1..] == codecs[j + 1..];
  }

  /** One round of the `for...in` loop: the inner `deduce` tries the codec
      strings in order, records `false` for each unusable answer, and on the
      first usable one records it and pushes or unshifts the extension. */
  method ProbeCandidate(canPlay: string -> string, name: string, c: Candidate,
                        arr: seq<string>, answers: map<string, Value>)
    returns (arr': seq<string>, answers': map<string, Value>)
    ensures arr' == Place(arr, c.ext, Answer(canPlay, name, c))
    ensures answers' == if c.codecs == [] then answers
      else answers[c.ext := if Truthy(Answer(canPlay, name, c)) then Answer(canPlay, name, c) else Bool(false)]
  {
    arr', answers' := arr, answers;
    ghost var a := Answer(canPlay, name, c);
    var j := 0;
    while j < |c.codecs|
      invariant 0 <= j <= |c.codecs|
      invariant a == FirstUsable(canPlay, name, c.codecs[j..])
      invariant answers' == if j == 0 then answers else answers[c.ext := Bool(false)]
      invariant arr' == arr
    {
      // `arr[ext] = 'no' !== can && can || false`
      var answer := Probe(canPlay, name + c.codecs[j]);
      FirstUsableStep(canPlay, name, c.codecs, j);
      answers' := answers'[c.ext := if Truthy(answer) then answer else Bool(false)];
      if Truthy(answer) {
        arr' := if answer == Str("maybe") then arr' + [c.ext] else [c.ext] + arr';
        return;
      }
      j := j + 1;
    }
  }

  /** The builder for one category: the body of the outer `deduce` callback,
      with its `for...in` loop over the candidates. */
  method BuildCapability(canPlayType: Option<string -> string>, category: Category) returns (cap: Capability)
    ensures canPlayType.None? ==> cap == Capability([], map[])
    ensures canPlayType.Some? ==>
      cap.ranking == RankingOf(canPlayType.value, TagName(category) + "/", Candidates(category))
    ensures canPlayType.Some? ==>
      cap.answers == AnswersOf(canPlayType.value, TagName(category) + "/", Candidates(category))
  {
    var arr: seq<string> := [];
    var answers: map<string, Value> := map[];
    if canPlayType.Some? {
      var canPlay := canPlayType.value;
      var name := TagName(category) + "/";
      var types := Candidates(category);
      for k := 0 to |types|
        invariant arr == RankingOf(canPlay, name, types[..k])
        invariant answers == AnswersOf(canPlay, name, types[..k])
      {
        assert types[..k + 1][..k] == types[..k];
        arr, answers := ProbeCandidate(canPlay, name, types[k], arr, answers);
      }
      assert types[..|types|] == types;
    }
    cap := Capability(arr, answers);
  }

  /** `support`: the audio table, then the video table. */
  method BuildSupport(audioCanPlayType: Option<string -> string>, videoCanPlayType: Option<string -> string>)
    returns (support: Support)
    ensures audioCanPlayType.None? ==> RankingFor(support, Audio) == []
    ensures videoCanPlayType.None? ==> RankingFor(support, Video) == []
    ensures audioCanPlayType.Some? ==>
      RankingFor(support, Audio) == RankingOf(audioCanPlayType.value, TagName(Audio) + "/", Candidates(Audio))
    ensures videoCanPlayType.Some? ==>
      RankingFor(support, Video) == RankingOf(videoCanPlayType.value, TagName(Video) + "/", Candidates(Video))
  {
    var audio := BuildCapability(audioCanPlayType, Audio);
    var video := BuildCapability(videoCanPlayType, Video);
    support := Support(audio, video);
  }

  // ---------------------------------------------------------------------
  // An independent description of the ranking

  /** A usable answer other than "maybe". */
  predicate Confident(answer: Value) {
    Truthy(answer) && answer != Str("maybe")
  }

  /** The extensions, in probe order, whose answer is "maybe" (`maybe`) or
      confident (`!maybe`). */
  function Selected(canPlay: string -> string, prefix: string, table: seq<Candidate>, maybe: bool): seq<string>
    decreases |table|
  {
    if table == [] then []
    else
      var a := Answer(canPlay, prefix, table[0]);
      var keep := if maybe then a == Str("maybe") else Confident(a);
      (if keep then [table[0].ext] else []) + Selected(canPlay, prefix, table[1..], maybe)
  }

  function Reverse(s: seq<string>): seq<string>
    decreases |s|
  {
    if s == [] then [] else Reverse(s[1..]) + [s[0]]
  }

  lemma {:induction false} ReverseAppend(s: seq<string>, x: string)
    ensures Reverse(s + [x]) == [x] + Reverse(s)
    decreases |s|
  {
    if s != [] {
      assert (s + [x])[1..] == s[1..] + [x];
      ReverseAppend(s[1..], x);
    }
  }

  lemma {:induction false} SelectedAppend(canPlay: string -> string, prefix: string, table: seq<Candidate>, c: Candidate, maybe: bool)
    ensures Selected(canPlay, prefix, table + [c], maybe) ==
      Selected(canPlay, prefix, table, maybe) +
      (if (if maybe then Answer(canPlay, prefix, c) == Str("maybe") else Confident(Answer(canPlay, prefix, c))) then [c.ext] else [])
    decreases |table|
  {
    if table != [] {
      assert (table + [c])[1..] == table[1..] + [c];
      SelectedAppend(canPlay, prefix, table[1..], c, maybe);
    }
  }

  /** Placing one more candidate keeps the ranking in the form "reversed
      confident formats, then maybe formats". */
  lemma PlaceSplit(conf: seq<string>, maybes: seq<string>, ext: string, a: Value)
    ensures Place(Reverse(conf) + maybes, ext, a) ==
      Reverse(conf + (if Confident(a) then [ext] else [])) + (maybes + (if a == Str("maybe") then [ext] else []))
  {
    if !Truthy(a) {
      assert conf + [] == conf;
      assert maybes + [] == maybes;
    } else if a == Str("maybe") {
      assert conf + [] == conf;
      assert Reverse(conf) + (maybes + [ext]) == (Reverse(conf) + maybes) + [ext];
    } else {
      ReverseAppend(conf, ext);
      assert maybes + [] == maybes;
      assert ([ext] + Reverse(conf)) + maybes == [ext] + (Reverse(conf) + maybes);
    }
  }

  /** The ranking is every confidently playable format in REVERSE probe
      order, followed by every "maybe" format in probe order; unusable
      formats are absent. */
  lemma {:induction false} RankingOrder(canPlay: string -> string, prefix: string, table: seq<Candidate>)
    ensures RankingOf(canPlay, prefix, table) ==
      Reverse(Selected(canPlay, prefix, table, false)) + Selected(canPlay, prefix, table, true)
    decreases |table|
  {
    if table != [] {
      var init, c := table[..|table| - 1], table[|table| - 1];
      assert table == init + [c];
      RankingOrder(canPlay, prefix, init);
      SelectedAppend(canPlay, prefix, init, c, false);
      SelectedAppend(canPlay, prefix, init, c, true);
      PlaceSplit(Selected(canPlay, prefix, init, false), Selected(canPlay, prefix, init, true),
                 c.ext, Answer(canPlay, prefix, c));
    }
  }

  /** A format is ranked exactly when one of the candidates with that
      extension got a usable answer. */
  lemma {:induction false} RankingMembers(canPlay: string -> string, prefix: string, table: seq<Candidate>, e: string)
    ensures e in RankingOf(canPlay, prefix, table) <==>
      exists i :: 0 <= i < |table| && table[i].ext == e && Truthy(Answer(canPlay, prefix, table[i]))
    decreases |table|
  {
    if table != [] {
      var init, c := table[..|table| - 1], table[|table| - 1];
      RankingMembers(canPlay, prefix, init, e);
      if e in RankingOf(canPlay, prefix, table) && e !in RankingOf(canPlay, prefix, init) {
        assert table[|table| - 1].ext == e && Truthy(Answer(canPlay, prefix, table[|table| - 1]));
      }
      if exists i :: 0 <= i < |table| && table[i].ext == e && Truthy(Answer(canPlay, prefix, table[i])) {
        var i :| 0 <= i < |table| && table[i].ext == e && Truthy(Answer(canPlay, prefix, table[i]));
        if i < |table| - 1 {
          assert init[i] == table[i];
        }
      }
    }
  }

  predicate DistinctExts(table: seq<Candidate>) {
    forall i, j :: 0 <= i < j < |table| ==> table[i].ext != table[j].ext
  }

  /** Each extension is ranked at most once when the candidates' extensions
      are distinct. */
  lemma {:induction false} RankingNoDuplicates(canPlay: string -> string, prefix: string, table: seq<Candidate>)
    requires DistinctExts(table)
    ensures forall i, j :: 0 <= i < j < |RankingOf(canPlay, prefix, table)| ==>
      RankingOf(canPlay, prefix, table)[i] != RankingOf(canPlay, prefix, table)[j]
    decreases |table|
  {
    if table != [] {
      var init, c := table[..|table| - 1], table[|table| - 1];
      RankingNoDuplicates(canPlay, prefix, init);
      RankingMembers(canPlay, prefix, init, c.ext);
      assert c.ext !in RankingOf(canPlay, prefix, init);
    }
  }

  /** Both fixed candidate lists have distinct extensions, so neither
      category's ranking repeats a format. */
  lemma CandidatesDistinct(c: Category)
    ensures DistinctExts(Candidates(c))
  {
  }

  /** "wav" and "mp3" are both probed with `audio/mpeg;`, so the audio ranking
      holds either both of them or neither. */
  lemma WavRankedWithMp3(canPlay: string -> string)
    ensures "wav" in RankingOf(canPlay, "audio/", Candidates(Audio)) <==>
            "mp3" in RankingOf(canPlay, "audio/", Candidates(Audio))
  {
    var table := Candidates(Audio);
    RankingMembers(canPlay, "audio/", table, "wav");
    RankingMembers(canPlay, "audio/", table, "mp3");
    assert table[1].ext == "wav" && table[4].ext == "mp3";
    assert Answer(canPlay, "audio/", table[1]) == Answer(canPlay, "audio/", table[4]);
  }
}

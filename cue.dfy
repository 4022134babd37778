/** The older cursor of cue.js: the `[data-cue]` setup (cue.js:12-19) and the
    prev/next click handler (cue.js:23-37) that picks the entry to play. */
module Cue {
  import opened Js
  import Cursor

  /** The parsed `data-cue` value: one object, or an array in which `None`
      is a null entry. */
  datatype CueData = Single(entry: Track) | Several(entries: seq<Option<Track>>)

  /** What the handler does to the video's `src`: write the chosen entry's
      truthy `src`, leave it alone, or throw because the chosen entry is
      null. */
  datatype Effect = SetSrc(src: Value) | KeepSrc | TypeError

  /** The list the click handlers are wired with, if they are wired at all:
      falsy data does nothing, a single object is wrapped into a one-entry
      list, and an empty list or a container without a video wires nothing. */
  function Setup(data: Option<CueData>, hasVideo: bool): (r: Option<seq<Option<Track>>>)
    ensures r.Some? ==> |r.value| > 0 && hasVideo && data.Some?
    ensures r.Some? <==> data.Some? && hasVideo && (data.value.Single? || |data.value.entries| > 0)
    ensures data.Some? && data.value.Single? && hasVideo ==> r == Some([Some(data.value.entry)])
    ensures data.Some? && data.value.Several? && hasVideo && |data.value.entries| > 0 ==>
      r == Some(data.value.entries)
  {
    match data
    case None => None
    case Some(d) =>
      var cue := match d case Single(e) => [Some(e)] case Several(es) => es;
      if |cue| == 0 || !hasVideo then None else Some(cue)
  }

  /** The first non-null entry whose `src` is the string `curr`. */
  function FirstSrcMatch(cue: seq<Option<Track>>, curr: string): (r: Option<nat>)
    ensures r.Some? ==> r.value < |cue| && cue[r.value].Some? && Lookup(cue[r.value].value, "src") == Str(curr)
    ensures r.Some? ==> forall j :: 0 <= j < r.value ==> !IsSrc(cue[j], curr)
    ensures r.None? ==> forall j :: 0 <= j < |cue| ==> !IsSrc(cue[j], curr)
    decreases |cue|
  {
    if cue == [] then None
    else if IsSrc(cue[0], curr) then Some(0)
    else
      match FirstSrcMatch(cue[1..], curr)
      case None => None
      case Some(i) => Some(i + 1)
  }

  /** `v && curr === v['src']`. */
  predicate IsSrc(entry: Option<Track>, curr: string) {
    entry.Some? && Lookup(entry.value, "src") == Str(curr)
  }

  /** The entry the handler plays: one step from the matching entry, when
      the entry there exists; otherwise the first entry going forward and the
      last going backward. With no current source, or no match, the step
      starts from entry 0 itself. */
  function CueTarget(cue: seq<Option<Track>>, curr: string, fwd: bool): (k: int)
    requires |cue| > 0
    ensures 0 <= k < |cue|
  {
    var m := if curr == "" then None else FirstSrcMatch(cue, curr);
    var idx: int := match m case None => 0 case Some(i) => if fwd then i as int + 1 else i as int - 1;
    if 0 <= idx < |cue| && cue[idx].Some? then idx else if fwd then 0 else |cue| - 1
  }

  /** `next['src'] && $video.attr('src', next['src'])`. */
  function EffectOf(entry: Option<Track>): Effect {
    match entry
    case None => TypeError
    case Some(e) => if Truthy(Lookup(e, "src")) then SetSrc(Lookup(e, "src")) else KeepSrc
  }

  /** The click handler: `$.each` with an early exit finds the current
      entry, `idx` is stepped, and a missing entry falls back to a boundary. */
  method NextCue(cue: seq<Option<Track>>, curr: string, fwd: bool) returns (chosen: int, effect: Effect)
    requires |cue| > 0
    ensures chosen == CueTarget(cue, curr, fwd) && 0 <= chosen < |cue|
    ensures effect == EffectOf(cue[chosen])
  {
    var idx := 0;
    if curr != "" {
      var i := 0;
      while i < |cue|
        invariant 0 <= i <= |cue|
        invariant forall j :: 0 <= j < i ==> !IsSrc(cue[j], curr)
      {
        if cue[i].Some? && Str(curr) == Lookup(cue[i].value, "src") {
          idx := i;
          if fwd {
            idx := idx + 1;
          } else {
            idx := idx - 1;
          }
          ghost var m := FirstSrcMatch(cue, curr);
          assert IsSrc(cue[i], curr);
          assert m.Some? && m.value == i;
          break;
        }
        assert !IsSrc(cue[i], curr);
        i := i + 1;
      }
    }
    var next: Option<Track> := if 0 <= idx < |cue| then cue[idx] else None;
    chosen := idx;
    if next.None? {
      chosen := if fwd then 0 else |cue| - 1;
      next := cue[chosen];
    }
    effect := match next
      case None => TypeError
      case Some(e) => if Truthy(Lookup(e, "src")) then SetSrc(Lookup(e, "src")) else KeepSrc;
  }

  /** Stepping from the first entry holding the current source: one step in
      the chosen direction when that entry exists, otherwise entry 0 going
      forward and the last entry going backward. */
  lemma CueAfterMatch(cue: seq<Option<Track>>, curr: string, fwd: bool, i: int)
    requires curr != "" && 0 <= i < |cue| && IsSrc(cue[i], curr)
    requires forall j :: 0 <= j < i ==> !IsSrc(cue[j], curr)
    ensures var j := if fwd then i + 1 else i - 1;
      CueTarget(cue, curr, fwd) ==
        if 0 <= j < |cue| && cue[j].Some? then j else if fwd then 0 else |cue| - 1
  {
    var m := FirstSrcMatch(cue, curr);
    assert m.Some?;
    assert m.value == i;
  }

  /** With no current source, or no entry holding it, the handler picks entry
      0 in either direction; only a null entry 0 sends a backward step to the
      last entry. */
  lemma CueWithoutMatch(cue: seq<Option<Track>>, curr: string, fwd: bool)
    requires |cue| > 0
    requires curr == "" || forall j :: 0 <= j < |cue| ==> !IsSrc(cue[j], curr)
    ensures CueTarget(cue, curr, fwd) == if cue[0].Some? || fwd then 0 else |cue| - 1
  {
  }

  /** The two cursors part ways on a cold start: stepping backward with no
      current source, `changeTrack` goes to the last track while the cue.js
      handler goes to the first. */
  lemma ColdStartBackwardDiffers(playlist: seq<Track>)
    requires |playlist| > 1
    ensures Cursor.Target(playlist, "", -1) == |playlist| - 1
    ensures CueTarget(seq(|playlist|, i requires 0 <= i < |playlist| => Some(playlist[i])), "", false) == 0
  {
    Cursor.TargetWithoutMatch(playlist, "", -1);
  }
}

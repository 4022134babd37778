/** The playlist cursor `changeTrack` (src/index.js:205-247): which track the
    prev/next buttons move to, the URI written to the media element, and the
    propagation of the track's fields into bound nodes through
    `data-tunes-insert` and `data-tunes-attr`, using `updateAttr` (161-163). */
module Cursor {
  import opened Js

  // ---------------------------------------------------------------------
  // Index selection

  /** The property compared with the current URI:
      `curr.split('.').pop() || 'src'`. */
  function CurrentKey(curr: string): string {
    var e := Extension(curr);
    if e == "" then "src" else e
  }

  /** The compared property is "src" for a URI ending in a dot, and the
      URI's own non-empty extension for any other non-empty URI. */
  lemma CurrentKeyFallback(curr: string)
    requires curr != ""
    ensures curr[|curr| - 1] == '.' ==> CurrentKey(curr) == "src"
    ensures curr[|curr| - 1] != '.' ==> CurrentKey(curr) == Extension(curr) != ""
  {
    ExtensionEmpty(curr);
  }

  /** The first track whose `key` property is the string `curr`. */
  function MatchIndex(playlist: seq<Track>, key: string, curr: string): (r: Option<nat>)
    ensures r.Some? ==> r.value < |playlist| && Lookup(playlist[r.value], key) == Str(curr)
    ensures r.Some? ==> forall j :: 0 <= j < r.value ==> Lookup(playlist[j], key) != Str(curr)
    ensures r.None? ==> forall j :: 0 <= j < |playlist| ==> Lookup(playlist[j], key) != Str(curr)
    decreases |playlist|
  {
    if playlist == [] then None
    else if Lookup(playlist[0], key) == Str(curr) then Some(0)
    else
      match MatchIndex(playlist[1..], key, curr)
      case None => None
      case Some(i) => Some(i + 1)
  }

  /** The index `changeTrack` selects: `amount` steps from the first matching
      track when that lands inside the playlist, otherwise the last track
      when stepping backwards and the first one otherwise. */
  function Target(playlist: seq<Track>, curr: string, amount: int): (idx: int)
    requires |playlist| > 0
    ensures 0 <= idx < |playlist|
  {
    var m := if curr == "" then None else MatchIndex(playlist, CurrentKey(curr), curr);
    if m.Some? && 0 <= m.value + amount < |playlist| then m.value + amount
    else if amount < 0 then |playlist| - 1 else 0
  }

  /** Stepping from the first track that holds the current URI under the
      current URI's format moves by `amount` when that stays inside the
      playlist, and otherwise snaps to the boundary in the direction of the
      step, with no modular wrap. */
  lemma TargetAfterMatch(playlist: seq<Track>, curr: string, amount: int, i: int)
    requires curr != "" && 0 <= i < |playlist|
    requires Lookup(playlist[i], CurrentKey(curr)) == Str(curr)
    requires forall j :: 0 <= j < i ==> Lookup(playlist[j], CurrentKey(curr)) != Str(curr)
    ensures Target(playlist, curr, amount) ==
      if 0 <= i + amount < |playlist| then i + amount
      else if amount < 0 then |playlist| - 1 else 0
  {
    var m := MatchIndex(playlist, CurrentKey(curr), curr);
    assert m.Some?;
    assert m.value == i;
  }

  /** With no current URI, or none of the tracks holding it, the cursor
      starts over: from the last track going backwards, from the first
      otherwise. */
  lemma TargetWithoutMatch(playlist: seq<Track>, curr: string, amount: int)
    requires |playlist| > 0
    requires curr == "" || forall j :: 0 <= j < |playlist| ==> Lookup(playlist[j], CurrentKey(curr)) != Str(curr)
    ensures Target(playlist, curr, amount) == if amount < 0 then |playlist| - 1 else 0
  {
  }

  /** The scan of `changeTrack` (206-220): find the current track with a
      `for`/`break` loop, step, and fall back to a boundary. Also yields
      `next` and the `ext` key, which stays undefined without a current URI. */
  method SelectTrack(playlist: seq<Track>, currentSrc: string, amount: int)
    returns (idx: int, next: Track, ext: Option<string>)
    requires |playlist| > 0
    ensures idx == Target(playlist, currentSrc, amount)
    ensures 0 <= idx < |playlist| && next == playlist[idx]
    ensures ext == if currentSrc == "" then None else Some(CurrentKey(currentSrc))
  {
    var found: Option<Track> := None;
    var l := |playlist|;
    idx, ext := 0, None;
    if currentSrc != "" {
      var key := Extension(currentSrc);
      if key == "" {
        key := "src";
      }
      ext := Some(key);
      var i := 0;
      while i < l
        invariant 0 <= i <= l
        invariant forall j :: 0 <= j < i ==> Lookup(playlist[j], key) != Str(currentSrc)
      {
        if Lookup(playlist[i], key) == Str(currentSrc) {
          idx := i + amount;
          found := if 0 <= idx < l then Some(playlist[idx]) else None;
          ghost var m := MatchIndex(playlist, key, currentSrc);
          assert m.Some? && m.value == i;
          break;
        }
        i := i + 1;
      }
    }
    if found.None? {
      idx := if amount < 0 then l - 1 else 0;
      found := Some(playlist[idx]);
    }
    next := found.value;
  }

  /** `next[ext] || ''`: the URI written to the media element is the next
      track's value under the CURRENT URI's format, not its resolved `src`;
      without a current URI, `ext` is undefined and the property read is
      "undefined". */
  function MediaSource(next: Track, ext: Option<string>): (r: Value)
    ensures Truthy(r) || r == Str("")
    ensures ext.Some? && Truthy(Lookup(next, ext.value)) ==> r == Lookup(next, ext.value)
    ensures ext.Some? && !Truthy(Lookup(next, ext.value)) ==> r == Str("")
    ensures ext.None? ==> r == if Truthy(Lookup(next, "undefined")) then Lookup(next, "undefined") else Str("")
  {
    var v := Lookup(next, match ext case None => "undefined" case Some(e) => e);
    if Truthy(v) then v else Str("")
  }

  /** From a cold start (no current URI) the written URI is "" unless the
      track happens to have a truthy property named "undefined". */
  lemma ColdStartWritesEmpty(next: Track)
    requires !Truthy(Lookup(next, "undefined"))
    ensures MediaSource(next, None) == Str("")
  {
  }

  // ---------------------------------------------------------------------
  // Binding into nodes

  /** A node's content: emptied, or set from a value with `.html(v)`. */
  datatype Markup = Empty | Html(v: Value)

  /** `updateAttr(node, k, v)` on the node's attributes: remove `k` when `v`
      is null or undefined, set it otherwise. */
  function UpdateAttr(attrs: map<string, Value>, k: string, v: Value): (r: map<string, Value>)
    ensures v == Null ==> k !in r
    ensures v != Null ==> k in r && r[k] == v
    ensures forall k' :: k' != k ==> (k' in r <==> k' in attrs) && (k' in r ==> r[k'] == attrs[k'])
  {
    if v == Null then attrs - {k} else attrs[k := v]
  }

  /** The field an attribute entry names: a string, or a number read as a
      property name; any other entry is skipped. */
  function FieldName(v: Value): Option<string> {
    match v
    case Str(s) => Some(s)
    case Num(n) => Some(Decimal(n))
    case _ => None
  }

  /** The `data-tunes-insert` rule: with an insert key, the node gets
      `next[key]`, or is emptied when that is null or undefined. */
  function Inserted(markup: Markup, insert: Option<string>, next: Track): Markup {
    match insert
    case None => markup
    case Some(key) => if Lookup(next, key) == Null then Empty else Html(Lookup(next, key))
  }

  /** The `data-tunes-attr` rule: each entry, in order, updates its attribute
      from the field it names. */
  function BoundAttrs(attrs: map<string, Value>, entries: seq<(string, Value)>, next: Track): map<string, Value>
    decreases |entries|
  {
    if entries == [] then attrs
    else
      var e := entries[|entries| - 1];
      var before := BoundAttrs(attrs, entries[..|entries| - 1], next);
      match FieldName(e.1)
      case None => before
      case Some(field) => UpdateAttr(before, e.0, Lookup(next, field))
  }

  /** Some usable entry sets attribute `k`. */
  predicate Names(entries: seq<(string, Value)>, k: string) {
    exists i :: 0 <= i < |entries| && entries[i].0 == k && FieldName(entries[i].1).Some?
  }

  predicate SameAt(m: map<string, Value>, m': map<string, Value>, k: string) {
    (k in m <==> k in m') && (k in m ==> m[k] == m'[k])
  }

  /** An attribute no usable entry names keeps its state. */
  lemma {:induction false} BoundAttrsUntouched(attrs: map<string, Value>, entries: seq<(string, Value)>, next: Track, k: string)
    requires !Names(entries, k)
    ensures SameAt(BoundAttrs(attrs, entries, next), attrs, k)
    decreases |entries|
  {
    if entries != [] {
      var init := entries[..|entries| - 1];
      forall i | 0 <= i < |init| ensures !(init[i].0 == k && FieldName(init[i].1).Some?) {
        assert init[i] == entries[i];
      }
      BoundAttrsUntouched(attrs, init, next, k);
    }
  }

  /** The last usable entry naming an attribute decides it: set to the
      field's value, or removed when that is null or undefined. */
  lemma {:induction false} BoundAttrsLastWins(attrs: map<string, Value>, entries: seq<(string, Value)>, next: Track, i: int)
    requires 0 <= i < |entries| && FieldName(entries[i].1).Some?
    requires forall j :: i < j < |entries| ==> entries[j].0 != entries[i].0 || FieldName(entries[j].1).None?
    ensures var r := BoundAttrs(attrs, entries, next);
      var v := Lookup(next, FieldName(entries[i].1).value);
      if v == Null then entries[i].0 !in r else entries[i].0 in r && r[entries[i].0] == v
    decreases |entries|
  {
    if i < |entries| - 1 {
      var init := entries[..|entries| - 1];
      assert init[i] == entries[i];
      BoundAttrsLastWins(attrs, init, next, i);
    }
  }

  /** Where the entries name an attribute, its final state does not depend
      on the state it started from. */
  lemma {:induction false} BoundAttrsForget(a: map<string, Value>, b: map<string, Value>, entries: seq<(string, Value)>, next: Track, k: string)
    requires Names(entries, k)
    ensures SameAt(BoundAttrs(a, entries, next), BoundAttrs(b, entries, next), k)
    decreases |entries|
  {
    var init := entries[..|entries| - 1];
    var e := entries[|entries| - 1];
    if !(e.0 == k && FieldName(e.1).Some?) {
      var i :| 0 <= i < |entries| && entries[i].0 == k && FieldName(entries[i].1).Some?;
      assert i < |entries| - 1 && init[i] == entries[i];
      BoundAttrsForget(a, b, init, next, k);
    }
  }

  /** Binding the same track twice leaves a node as binding it once. */
  lemma BindIdempotent(markup: Markup, attrs: map<string, Value>, insert: Option<string>,
                       entries: seq<(string, Value)>, next: Track)
    ensures Inserted(Inserted(markup, insert, next), insert, next) == Inserted(markup, insert, next)
    ensures BoundAttrs(BoundAttrs(attrs, entries, next), entries, next) == BoundAttrs(attrs, entries, next)
  {
    var once := BoundAttrs(attrs, entries, next);
    var twice := BoundAttrs(once, entries, next);
    forall k ensures (k in twice <==> k in once) && (k in twice ==> twice[k] == once[k]) {
      if Names(entries, k) {
        BoundAttrsForget(once, attrs, entries, next, k);
      } else {
        BoundAttrsUntouched(once, entries, next, k);
      }
    }
    assert twice.Keys == once.Keys;
  }

  /** An element in the container, with the two binding attributes it may
      carry (the insert key and the entries of the parsed attribute map) and
      the state the binding writes. */
  class BoundNode {
    var insert: Option<string>
    var attrMap: seq<(string, Value)>
    var markup: Markup
    var attrs: map<string, Value>

    /** The callback of the `deduce` over the node list (232-245). */
    method Bind(next: Track)
      modifies this`markup, this`attrs
      ensures markup == Inserted(old(markup), insert, next)
      ensures attrs == BoundAttrs(old(attrs), attrMap, next)
    {
      if insert.Some? {
        var v := Lookup(next, insert.value);
        markup := if v == Null then Empty else Html(v);
      }
      var n := 0;
      while n < |attrMap|
        invariant 0 <= n <= |attrMap|
        invariant markup == Inserted(old(markup), insert, next)
        invariant attrs == BoundAttrs(old(attrs), attrMap[..n], next)
      {
        assert attrMap[..n + 1][..n] == attrMap[..n];
        var field := FieldName(attrMap[n].1);
        if field.Some? {
          attrs := UpdateAttr(attrs, attrMap[n].0, Lookup(next, field.value));
        }
        n := n + 1;
      }
      assert attrMap[..n] == attrMap;
    }
  }

  /** `changeTrack`: select the track, compute the URI for the media element
      (returned as `src`, with the index that is written to the container),
      update a video's `poster` attribute from the track, and then bind the
      track into every node of the container. The media element is one of
      those nodes, so its own binding attributes apply after the poster
      update. */
  method ChangeTrack(nodes: seq<BoundNode>, media: BoundNode, currentSrc: string, playlist: seq<Track>,
                     amount: int, isVideo: bool)
    returns (idx: int, src: Value)
    requires |playlist| > 0
    requires forall i, j :: 0 <= i < j < |nodes| ==> nodes[i] != nodes[j]
    requires media in nodes
    modifies set n | n in nodes
    ensures idx == Target(playlist, currentSrc, amount) && 0 <= idx < |playlist|
    ensures src == MediaSource(playlist[idx], if currentSrc == "" then None else Some(CurrentKey(currentSrc)))
    ensures forall n :: n in nodes ==> n.insert == old(n.insert) && n.attrMap == old(n.attrMap)
    ensures forall n :: n in nodes ==> n.markup == Inserted(old(n.markup), n.insert, playlist[idx])
    ensures forall n :: n in nodes && n != media ==>
      n.attrs == BoundAttrs(old(n.attrs), n.attrMap, playlist[idx])
    ensures media.attrs == BoundAttrs(
      if isVideo then UpdateAttr(old(media.attrs), "poster", Lookup(playlist[idx], "poster")) else old(media.attrs),
      media.attrMap, playlist[idx])
  {
    var next, ext;
    idx, next, ext := SelectTrack(playlist, currentSrc, amount);
    src := MediaSource(next, ext);
    if isVideo {
      media.attrs := UpdateAttr(media.attrs, "poster", Lookup(next, "poster"));
    }
    BindAll(nodes, next);
  }

  /** The `deduce` over the node list: every node is bound to the track. */
  method BindAll(nodes: seq<BoundNode>, next: Track)
    requires forall i, j :: 0 <= i < j < |nodes| ==> nodes[i] != nodes[j]
    modifies set n | n in nodes
    ensures forall n :: n in nodes ==> n.insert == old(n.insert) && n.attrMap == old(n.attrMap)
    ensures forall n :: n in nodes ==>
      n.markup == Inserted(old(n.markup), n.insert, next) &&
      n.attrs == BoundAttrs(old(n.attrs), n.attrMap, next)
  {
    for k := 0 to |nodes|
      invariant forall j :: 0 <= j < |nodes| ==>
        nodes[j].insert == old(nodes[j].insert) && nodes[j].attrMap == old(nodes[j].attrMap)
      invariant forall j :: 0 <= j < k ==>
        nodes[j].markup == Inserted(old(nodes[j].markup), nodes[j].insert, next) &&
        nodes[j].attrs == BoundAttrs(old(nodes[j].attrs), nodes[j].attrMap, next)
      invariant forall j :: k <= j < |nodes| ==>
        nodes[j].markup == old(nodes[j].markup) && nodes[j].attrs == old(nodes[j].attrs)
    {
      nodes[k].Bind(next);
    }
  }
}

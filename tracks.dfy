/** The track normaliser of src/index.js: `compact` (146-153),
    `setExtensionProps` (269-272), `getBestType` (136-140) and the
    `while (i--)` loop of `effinTunes` (314-324) that rewrites every track
    of the playlist in place. */
module Tracks {
  import opened Js
  import opened Capability

  // ---------------------------------------------------------------------
  // compact

  /** The entries of a list that `compact` keeps: the truthy ones, in order. */
  function TruthyItems(items: seq<Value>): (r: seq<Value>)
    ensures |r| <= |items|
    ensures forall v :: v in r ==> v in items && Truthy(v)
    decreases |items|
  {
    if items == [] then []
    else (if Truthy(items[0]) then [items[0]] else []) + TruthyItems(items[1..])
  }

  /** Filtering distributes over concatenation: `TruthyItems` deletes the
      falsy entries and keeps the others in their original order. */
  lemma {:induction false} TruthyItemsAppend(s: seq<Value>, t: seq<Value>)
    ensures TruthyItems(s + t) == TruthyItems(s) + TruthyItems(t)
    decreases |s|
  {
    if s == [] {
      assert s + t == t;
    } else {
      assert (s + t)[0] == s[0];
      assert (s + t)[1..] == s[1..] + t;
      TruthyItemsAppend(s[1..], t);
    }
  }

  /** Every truthy entry of the input is kept. */
  lemma {:induction false} TruthyItemsComplete(items: seq<Value>, v: Value)
    requires v in items && Truthy(v)
    ensures v in TruthyItems(items)
    decreases |items|
  {
    if items[0] != v {
      TruthyItemsComplete(items[1..], v);
    }
  }

  /** `s.split(' ')` as values. */
  function Words(s: string): (r: seq<Value>)
    ensures |r| == |Split(s, ' ')|
    ensures forall i :: 0 <= i < |r| ==> r[i] == Str(Split(s, ' ')[i])
  {
    var parts := Split(s, ' ');
    seq(|parts|, i requires 0 <= i < |parts| => Str(parts[i]))
  }

  /** What `compact(list)` returns: nothing for a falsy input; the non-empty
      space-separated words of a string; the truthy entries of an array; and
      nothing for any other truthy value, whose `length` is undefined. */
  function CompactOf(list: Value): seq<Value> {
    if !Truthy(list) then [] else TruthyItems(Listed(list))
  }

  /** The entries `compact` walks over once `list` is known to be truthy:
      the pieces of a string split on single spaces, the entries of an
      array, and none for a value without `length`. */
  function Listed(list: Value): seq<Value> {
    match list
    case Str(s) => Words(s)
    case List(items) => items
    case _ => []
  }

  /** `compact`: a new list of the truthy entries, built with a loop. */
  method Compact(list: Value) returns (comp: seq<Value>)
    ensures comp == CompactOf(list)
    ensures forall v :: v in comp ==> Truthy(v)
  {
    comp := [];
    if !Truthy(list) {
      return;
    }
    var items := Listed(list);
    for i := 0 to |items|
      invariant comp == TruthyItems(items[..i])
    {
      var item := items[i];
      assert items[..i + 1] == items[..i] + [item];
      TruthyItemsAppend(items[..i], [item]);
      assert TruthyItems([item]) == if Truthy(item) then [item] else [];
      if Truthy(item) {
        comp := comp + [item];
      }
    }
    assert items[..|items|] == items;
  }

  /** A string is compacted into its non-empty words, none of which holds a
      space. */
  lemma CompactWords(s: string)
    ensures forall v :: v in CompactOf(Str(s)) ==> v.Str? && v.s != "" && ' ' !in v.s
  {
    SplitPiecesLackSeparator(s, ' ');
    forall v | v in CompactOf(Str(s))
      ensures v.Str? && v.s != "" && ' ' !in v.s
    {
      assert v in TruthyItems(Words(s));
      assert v in Words(s);
      var i :| 0 <= i < |Words(s)| && Words(s)[i] == v;
      assert Split(s, ' ')[i] in Split(s, ' ');
    }
  }

  // ---------------------------------------------------------------------
  // setExtensionProps

  /** One call of `setExtensionProps` on a track: the URI is recorded under
      its extension unless that property is already truthy. */
  function SetExtensionProp(t: Track, uri: string): Track {
    var x := Extension(uri);
    if Truthy(Lookup(t, x)) then t else t[x := Str(uri)]
  }

  /** `deduce(uris, setExtensionProps, t)`: the callback returns nothing, so
      every URI is visited in order. */
  function WithExtensionProps(t: Track, uris: seq<string>): Track
    decreases |uris|
  {
    if uris == [] then t
    else SetExtensionProp(WithExtensionProps(t, uris[..|uris| - 1]), uris[|uris| - 1])
  }

  function Extensions(uris: seq<string>): set<string> {
    set u | u in uris :: Extension(u)
  }

  /** The properties afterwards: the track's own plus one per extension. */
  lemma {:induction false} ExtensionPropsKeys(t: Track, uris: seq<string>)
    ensures WithExtensionProps(t, uris).Keys == t.Keys + Extensions(uris)
    decreases |uris|
  {
    if uris != [] {
      var init := uris[..|uris| - 1];
      ExtensionPropsKeys(t, init);
      assert uris == init + [uris[|uris| - 1]];
      assert Extensions(uris) == Extensions(init) + {Extension(uris[|uris| - 1])};
    }
  }

  /** A property that is already truthy is never overwritten. */
  lemma {:induction false} ExtensionPropsKeepTruthy(t: Track, uris: seq<string>, k: string)
    requires Truthy(Lookup(t, k))
    ensures Lookup(WithExtensionProps(t, uris), k) == Lookup(t, k)
    decreases |uris|
  {
    if uris != [] {
      ExtensionPropsKeepTruthy(t, uris[..|uris| - 1], k);
    }
  }

  /** A property that no URI's extension names is left as it was. */
  lemma {:induction false} ExtensionPropsUntouched(t: Track, uris: seq<string>, k: string)
    requires forall u :: u in uris ==> Extension(u) != k
    ensures Lookup(WithExtensionProps(t, uris), k) == Lookup(t, k)
    ensures k in WithExtensionProps(t, uris) <==> k in t
    decreases |uris|
  {
    if uris != [] {
      ExtensionPropsUntouched(t, uris[..|uris| - 1], k);
    }
  }

  /** First seen wins: when the property is not already truthy, it ends up
      holding the first non-empty URI with that extension. */
  lemma {:induction false} ExtensionPropsFirstSeen(t: Track, uris: seq<string>, i: int)
    requires forall u :: u in uris ==> u != ""
    requires 0 <= i < |uris|
    requires !Truthy(Lookup(t, Extension(uris[i])))
    requires forall j :: 0 <= j < i ==> Extension(uris[j]) != Extension(uris[i])
    ensures Lookup(WithExtensionProps(t, uris), Extension(uris[i])) == Str(uris[i])
    decreases |uris|
  {
    var init := uris[..|uris| - 1];
    var k := Extension(uris[i]);
    if i == |uris| - 1 {
      forall u | u in init ensures Extension(u) != k {
        var j :| 0 <= j < |init| && init[j] == u;
        assert uris[j] == u;
      }
      ExtensionPropsUntouched(t, init, k);
    } else {
      assert forall u :: u in init ==> u in uris;
      assert init[i] == uris[i];
      assert forall j :: 0 <= j < i ==> init[j] == uris[j];
      ExtensionPropsFirstSeen(t, init, i);
      assert uris[i] in uris;
      assert Truthy(Str(uris[i]));
    }
  }

  // ---------------------------------------------------------------------
  // getBestType

  /** `getBestType(t, name)` with `ranking` standing for `support[name]`: the
      first truthy `t[type]` along the ranking, or "". */
  function BestType(t: Track, ranking: seq<string>): (r: Value)
    ensures Truthy(r) || r == Str("")
  {
    var d := FirstPresent(t, ranking);
    if Truthy(d) then d else Str("")
  }

  /** The inner `deduce` of `getBestType`: the first truthy `t[type]` along
      the ranking, or undefined. */
  function FirstPresent(t: Track, ranking: seq<string>): Value
    decreases |ranking|
  {
    if ranking == [] then Null
    else if Truthy(Lookup(t, ranking[0])) then Lookup(t, ranking[0])
    else FirstPresent(t, ranking[1..])
  }

  /** `FirstPresent` is `deduce` over the ranking with the lookup callback. */
  lemma {:induction false} FirstPresentIsDeduce(t: Track, ranking: seq<string>)
    ensures FirstPresent(t, ranking) == Deduce(ranking, (e: string) => Lookup(t, e))
    decreases |ranking|
  {
    if ranking != [] {
      FirstPresentIsDeduce(t, ranking[1..]);
    }
  }

  /** The best type is the track's value for the highest-ranked format it
      has a truthy value for. */
  lemma BestTypeFirst(t: Track, ranking: seq<string>, i: int)
    requires 0 <= i < |ranking| && Truthy(Lookup(t, ranking[i]))
    requires forall j :: 0 <= j < i ==> !Truthy(Lookup(t, ranking[j]))
    ensures BestType(t, ranking) == Lookup(t, ranking[i])
  {
    FirstPresentIsDeduce(t, ranking);
    DeduceFirst(ranking, (e: string) => Lookup(t, e), i);
  }

  /** With no ranked format on the track, the best type is "". */
  lemma BestTypeNone(t: Track, ranking: seq<string>)
    requires forall j :: 0 <= j < |ranking| ==> !Truthy(Lookup(t, ranking[j]))
    ensures BestType(t, ranking) == Str("")
  {
    FirstPresentIsDeduce(t, ranking);
  }

  // ---------------------------------------------------------------------
  // Normalisation

  predicate AllStrings(items: seq<Value>) {
    forall v :: v in items ==> v.Str?
  }

  function AsStrings(items: seq<Value>): (r: seq<string>)
    requires AllStrings(items)
    ensures |r| == |items| && forall i :: 0 <= i < |items| ==> Str(r[i]) == items[i]
  {
    var r := seq(|items|, i requires 0 <= i < |items| => items[i].s);
    assert forall i :: 0 <= i < |items| ==> items[i] in items && Str(r[i]) == items[i];
    r
  }

  /** The URIs `compact` extracts from a track's `src`. */
  function SourceItems(t: Track): seq<Value> {
    CompactOf(Lookup(t, "src"))
  }

  /** One iteration of the `while (i--)` loop on the track at position `n`:
      number it, record its URIs by extension, then replace `src` by the best
      type. `None` when `setExtensionProps` would be handed a non-string
      entry (a `TypeError` in the source). */
  function NormalisedTrack(t: Track, n: nat, ranking: seq<string>): Option<Track> {
    var numbered := t["track-number" := Num(n)];
    var items := SourceItems(numbered);
    if !AllStrings(items) then None
    else
      var typed := WithExtensionProps(numbered, AsStrings(items));
      Some(typed["src" := BestType(typed, ranking)])
  }

  /** What normalisation does to a track's properties: it adds
      `track-number`, `src` and one property per source extension; it sets
      `track-number` to the position (unless, at position 0 where the number
      is falsy, a URI's extension is literally "track-number"); it never
      overwrites a truthy explicit property other than `src` and
      `track-number`; and it leaves every other property no extension names
      as it was. */
  lemma NormalisedFields(t: Track, n: nat, ranking: seq<string>)
    requires NormalisedTrack(t, n, ranking).Some?
    ensures var r := NormalisedTrack(t, n, ranking).value;
      var uris := AsStrings(SourceItems(t));
      && r.Keys == t.Keys + {"track-number", "src"} + Extensions(uris)
      && ((n != 0 || "track-number" !in Extensions(uris)) ==> r["track-number"] == Num(n))
      && (forall k :: k != "src" && k != "track-number" && Truthy(Lookup(t, k)) ==> Lookup(r, k) == Lookup(t, k))
      && (forall k :: k != "src" && k != "track-number" && k !in Extensions(uris) ==> Lookup(r, k) == Lookup(t, k))
  {
    var numbered := t["track-number" := Num(n)];
    assert SourceItems(numbered) == SourceItems(t);
    var uris := AsStrings(SourceItems(t));
    var typed := WithExtensionProps(numbered, uris);
    var r := NormalisedTrack(t, n, ranking).value;
    assert r == typed["src" := BestType(typed, ranking)];
    ExtensionPropsKeys(numbered, uris);
    if n != 0 {
      ExtensionPropsKeepTruthy(numbered, uris, "track-number");
    } else if "track-number" !in Extensions(uris) {
      ExtensionPropsUntouched(numbered, uris, "track-number");
    }
    forall k | k != "src" && k != "track-number" && Truthy(Lookup(t, k))
      ensures Lookup(r, k) == Lookup(t, k)
    {
      ExtensionPropsKeepTruthy(numbered, uris, k);
    }
    forall k | k != "src" && k != "track-number" && k !in Extensions(uris)
      ensures Lookup(r, k) == Lookup(t, k)
    {
      ExtensionPropsUntouched(numbered, uris, k);
    }
  }

  /** The normalised `src` is the best type of the track once its URIs are
      recorded by extension; so an explicit format property takes precedence
      over a URI from `src` with the same extension. */
  lemma NormalisedSource(t: Track, n: nat, ranking: seq<string>, i: int)
    requires NormalisedTrack(t, n, ranking).Some?
    requires var typed := WithExtensionProps(t["track-number" := Num(n)], AsStrings(SourceItems(t)));
      && 0 <= i < |ranking| && Truthy(Lookup(typed, ranking[i]))
      && forall j :: 0 <= j < i ==> !Truthy(Lookup(typed, ranking[j]))
    ensures NormalisedTrack(t, n, ranking).value["src"] ==
      Lookup(WithExtensionProps(t["track-number" := Num(n)], AsStrings(SourceItems(t))), ranking[i])
  {
    var numbered := t["track-number" := Num(n)];
    assert SourceItems(numbered) == SourceItems(t);
    BestTypeFirst(WithExtensionProps(numbered, AsStrings(SourceItems(t))), ranking, i);
  }

  /** `deduce(items, setExtensionProps, t)`: each URI in turn is recorded
      under its extension. `ok` is false when an entry is not a string, on
      which `v.split` throws. */
  method RecordExtensions(t: Track, items: seq<Value>) returns (ok: bool, r: Track)
    ensures ok == AllStrings(items)
    ensures ok ==> r == WithExtensionProps(t, AsStrings(items))
  {
    r := t;
    var j := 0;
    while j < |items|
      invariant 0 <= j <= |items|
      invariant AllStrings(items[..j])
      invariant r == WithExtensionProps(t, AsStrings(items[..j]))
    {
      if !items[j].Str? {
        assert items[j] in items;
        return false, r;
      }
      assert items[..j + 1] == items[..j] + [items[j]];
      assert AsStrings(items[..j + 1]) == AsStrings(items[..j]) + [items[j].s];
      r := SetExtensionProp(r, items[j].s);
      j := j + 1;
    }
    assert items[..j] == items;
    return true, r;
  }

  /** The body of the normalisation loop for position `i`: number the track,
      record its URIs by extension, and save the best type as its `src`. On
      `false` the track's `src` held a non-string entry and the source
      throws. */
  method NormaliseAt(tunes: array<Track>, i: nat, ranking: seq<string>) returns (ok: bool)
    requires i < tunes.Length
    modifies tunes
    ensures forall k :: 0 <= k < tunes.Length && k != i ==> tunes[k] == old(tunes[k])
    ensures ok == NormalisedTrack(old(tunes[i]), i, ranking).Some?
    ensures ok ==> NormalisedTrack(old(tunes[i]), i, ranking) == Some(tunes[i])
  {
    var numbered := tunes[i]["track-number" := Num(i)];
    tunes[i] := numbered;
    var items := Compact(Lookup(numbered, "src"));
    var typed;
    ok, typed := RecordExtensions(numbered, items);
    if ok {
      tunes[i] := typed["src" := BestType(typed, ranking)];
    }
  }

  /** The normalisation loop of `effinTunes`, from the last track to the
      first, rewriting each in place. It reports `false` when it stops on a
      track whose `src` holds a non-string entry; the tracks after that one
      are then already normalised and those before it untouched. */
  method Normalise(tunes: array<Track>, support: Support, category: Category) returns (ok: bool)
    modifies tunes
    ensures ok <==> forall k :: 0 <= k < tunes.Length ==>
      NormalisedTrack(old(tunes[k]), k, RankingFor(support, category)).Some?
    ensures ok ==> forall k :: 0 <= k < tunes.Length ==>
      NormalisedTrack(old(tunes[k]), k, RankingFor(support, category)) == Some(tunes[k])
    ensures !ok ==> exists i :: 0 <= i < tunes.Length &&
                               NormalisedTrack(old(tunes[i]), i, RankingFor(support, category)).None? &&
                               (forall k :: 0 <= k < i ==> tunes[k] == old(tunes[k])) &&
                               (forall k :: i < k < tunes.Length ==>
                                  NormalisedTrack(old(tunes[k]), k, RankingFor(support, category)) == Some(tunes[k]))
  {
    var ranking := RankingFor(support, category);
    var i := tunes.Length;
    while i > 0
      invariant 0 <= i <= tunes.Length
      invariant forall k :: 0 <= k < i ==> tunes[k] == old(tunes[k])
      invariant forall k :: i <= k < tunes.Length ==> NormalisedTrack(old(tunes[k]), k, ranking) == Some(tunes[k])
    {
      i := i - 1;
      ok := NormaliseAt(tunes, i, ranking);
      if !ok {
        assert NormalisedTrack(old(tunes[i]), i, ranking).None?;
        return;
      }
    }
    return true;
  }
}

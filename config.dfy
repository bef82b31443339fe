/** Building the class-name → layer table from the configuration (src/config.rs). */
module Config {
  import opened Prelude
  import opened Layers

  /** `TitleMap`: a window class name to the layer chosen for it. */
  type TitleMap = map<string, Layer>

  /** The parsed configuration: list `i` holds the class names of layer `i + 1`. */
  datatype Config = Config(layers: seq<seq<string>>)

  /** The two validation failures of the configuration. The file-system and parse
      failures (`Create`, `Parse`, `NoHome`) belong to the I/O that is not modelled. */
  datatype ConfigError =
    | TooManyLayers(count: nat)
    | DuplicateTitle(title: string, layer: Layer, titleIndex: nat)

  /** The length check of `Config::from_file`. `parsed` is what the configuration file
      holds once deserialised, or `None` when there is no file yet, in which case the
      default configuration (no layers) is written out and used unchecked. */
  function FromFile(parsed: Option<seq<seq<string>>>): (r: Result<Config, ConfigError>)
    ensures parsed.None? ==> r == Ok(Config([]))
    ensures parsed.Some? ==> (r.Err? <==> |parsed.value| >= MAX_LAYERS)
    ensures r.Err? ==> r.error == TooManyLayers(|parsed.value|)
    ensures parsed.Some? && r.Ok? ==> r.value.layers == parsed.value
    ensures r.Ok? ==> |r.value.layers| < MAX_LAYERS
  {
    match parsed
    case None => Ok(Config([]))
    case Some(layers) =>
      if |layers| >= MAX_LAYERS then Err(TooManyLayers(|layers|)) else Ok(Config(layers))
  }

  /** One name as `into_map` visits it: the name, the layer it is filed under and its
      position within that layer's list. */
  datatype Entry = Entry(title: string, layer: Layer, index: nat)

  /** The entries of one name list, all filed under `layer`. */
  function ListEntries(titles: seq<string>, layer: Layer): (es: seq<Entry>)
    ensures |es| == |titles|
    ensures forall k :: 0 <= k < |es| ==> es[k] == Entry(titles[k], layer, k)
  {
    seq(|titles|, k requires 0 <= k < |titles| => Entry(titles[k], layer, k))
  }

  /** The entries of `lists` in scan order, the first list filed under layer `first`,
      the next under `first + 1`, and so on. */
  function Entries(lists: seq<seq<string>>, first: nat): seq<Entry>
    requires first + |lists| <= MAX_LAYERS
    decreases |lists|
  {
    if lists == [] then []
    else ListEntries(lists[0], first as Layer) + Entries(lists[1..], first + 1)
  }

  /** The number of names over all lists. */
  function TotalTitles(lists: seq<seq<string>>): nat
  {
    if lists == [] then 0 else |lists[0]| + TotalTitles(lists[1..])
  }

  /** Every name listed anywhere. */
  ghost function AllTitles(lists: seq<seq<string>>): set<string>
  {
    set i, j | 0 <= i < |lists| && 0 <= j < |lists[i]| :: lists[i][j]
  }

  /** The names of a run of entries. */
  function Titles(es: seq<Entry>): (ts: seq<string>)
    ensures |ts| == |es|
    ensures forall k :: 0 <= k < |es| ==> ts[k] == es[k].title
  {
    seq(|es|, k requires 0 <= k < |es| => es[k].title)
  }

  /** None of `ts` is in `keys` and no name of `ts` repeats. */
  ghost predicate FreshAndDistinct(keys: set<string>, ts: seq<string>)
  {
    && (forall i :: 0 <= i < |ts| ==> ts[i] !in keys)
    && (forall i, j :: 0 <= i < j < |ts| ==> ts[i] != ts[j])
  }

  /** The fold of `into_map` from the table `m`: insert each entry into a vacant slot,
      and stop at the first entry whose name is already present. */
  function InsertAll(m: TitleMap, es: seq<Entry>): Result<TitleMap, ConfigError>
    decreases |es|
  {
    if es == [] then Ok(m)
    else if es[0].title in m then Err(DuplicateTitle(es[0].title, es[0].layer, es[0].index))
    else InsertAll(m[es[0].title := es[0].layer], es[1..])
  }

  /** What `Config::into_map` returns for the lists `layers`. */
  function BuildTitleMap(layers: seq<seq<string>>): Result<TitleMap, ConfigError>
    requires |layers| < MAX_LAYERS
  {
    InsertAll(map[], Entries(layers, 1))
  }

  /** `Config::into_map`: list `i` goes to layer `i + 1`; each name is inserted into a
      vacant slot, and the first name already present ends the build with
      `DuplicateTitle`. The caller guarantees fewer than `MAX_LAYERS` lists (an
      `assert!` in the source), so `Layer::try_from(i + 1)` always succeeds. */
  method IntoMap(config: Config) returns (r: Result<TitleMap, ConfigError>)
    requires |config.layers| < MAX_LAYERS
    ensures r == BuildTitleMap(config.layers)
  {
    var lists := config.layers;
    var m: TitleMap := map[];
    var i := 0;
    while i < |lists|
      invariant 0 <= i <= |lists|
      invariant BuildTitleMap(lists) == InsertAll(m, Entries(lists[i..], i + 1))
    {
      var found := TryFrom(i + 1);
      assert found.Ok?;
      var layer := found.value;
      var data := lists[i];
      assert lists[i..][1..] == lists[i + 1..];
      ghost var rest := Entries(lists[i + 1..], i + 2);
      var j := 0;
      while j < |data|
        invariant 0 <= j <= |data|
        invariant BuildTitleMap(lists) == InsertAll(m, ListEntries(data, layer)[j..] + rest)
      {
        var title := data[j];
        ghost var es := ListEntries(data, layer)[j..] + rest;
        assert es[0] == Entry(title, layer, j);
        assert es[1..] == ListEntries(data, layer)[j + 1..] + rest;
        if title in m {
          // `Entry::Occupied`: the stored key is handed back into the error.
          return Err(DuplicateTitle(title, layer, j));
        }
        m := m[title := layer];
        j := j + 1;
      }
      assert ListEntries(data, layer)[j..] + rest == rest;
      i := i + 1;
    }
    return Ok(m);
  }

  /** `get_map`: read the configuration, then build the table from it. */
  method GetMap(parsed: Option<seq<seq<string>>>) returns (r: Result<TitleMap, ConfigError>)
    ensures parsed.None? ==> r == Ok(map[])
    ensures parsed.Some? && |parsed.value| >= MAX_LAYERS ==> r == Err(TooManyLayers(|parsed.value|))
    ensures parsed.Some? && |parsed.value| < MAX_LAYERS ==> r == BuildTitleMap(parsed.value)
  {
    var config := FromFile(parsed);
    if config.Err? {
      return Err(config.error);
    }
    r := IntoMap(config.value);
  }

  /** `map.layer(class)`: the layer a class name is ruled to, by exact match. */
  function LayerFor(rules: TitleMap, wmClass: string): (r: Option<Layer>)
    ensures r.Some? <==> wmClass in rules
    ensures r.Some? ==> r.value == rules[wmClass]
  {
    if wmClass in rules then Some(rules[wmClass]) else None
  }

  // ---------------------------------------------------------------------------
  // The fold: success, contents and the reported duplicate

  lemma {:induction false} TitlesTail(es: seq<Entry>)
    requires es != []
    ensures Titles(es[1..]) == Titles(es)[1..]
  {
  }

  /** The fold succeeds exactly when no name is already in the table or repeats. */
  lemma {:induction false} InsertAllSucceeds(m: TitleMap, es: seq<Entry>)
    ensures InsertAll(m, es).Ok? <==> FreshAndDistinct(m.Keys, Titles(es))
    decreases |es|
  {
    if es != [] {
      var t := es[0].title;
      var ts := Titles(es);
      TitlesTail(es);
      if t !in m {
        var m' := m[t := es[0].layer];
        InsertAllSucceeds(m', es[1..]);
        assert m'.Keys == m.Keys + {t};
        if FreshAndDistinct(m'.Keys, ts[1..]) {
          forall i, j | 0 <= i < j < |ts| ensures ts[i] != ts[j] {
            if i > 0 { assert ts[1..][i - 1] == ts[i] && ts[1..][j - 1] == ts[j]; }
            else { assert ts[1..][j - 1] == ts[j]; }
          }
        }
        if FreshAndDistinct(m.Keys, ts) {
          forall i | 0 <= i < |ts[1..]| ensures ts[1..][i] !in m'.Keys {
            assert ts[1..][i] == ts[i + 1];
          }
        }
      }
    }
  }

  /** A successful fold keeps what the table held, files every entry's name under the
      entry's layer, and grows the table by one slot per entry. */
  lemma {:induction false} InsertAllContents(m: TitleMap, es: seq<Entry>)
    requires InsertAll(m, es).Ok?
    ensures var r := InsertAll(m, es).value;
      && (forall t :: t in r <==> t in m || t in Titles(es))
      && (forall t :: t in m ==> r[t] == m[t])
      && (forall k :: 0 <= k < |es| ==> es[k].title in r && r[es[k].title] == es[k].layer)
      && |r| == |m| + |es|
    decreases |es|
  {
    if es != [] {
      var e := es[0];
      var m' := m[e.title := e.layer];
      InsertAllContents(m', es[1..]);
      TitlesTail(es);
      var ts := Titles(es);
      assert ts == [e.title] + ts[1..];
      var r := InsertAll(m, es).value;
      assert r == InsertAll(m', es[1..]).value;
      forall k | 0 <= k < |es| ensures es[k].title in r && r[es[k].title] == es[k].layer {
        if k > 0 { assert es[k] == es[1..][k - 1]; }
      }
    }
  }

  /** A failed fold reports the first entry, in order, whose name is already in the
      table or occurred earlier: everything before it was fresh and distinct. */
  lemma {:induction false} InsertAllFailure(m: TitleMap, es: seq<Entry>) returns (q: nat)
    requires InsertAll(m, es).Err?
    ensures q < |es|
    ensures InsertAll(m, es).error == DuplicateTitle(es[q].title, es[q].layer, es[q].index)
    ensures FreshAndDistinct(m.Keys, Titles(es[..q]))
    ensures es[q].title in m || es[q].title in Titles(es[..q])
    decreases |es|
  {
    var e := es[0];
    if e.title in m {
      q := 0;
    } else {
      var m' := m[e.title := e.layer];
      var q' := InsertAllFailure(m', es[1..]);
      q := q' + 1;
      var pre := Titles(es[..q]);
      var pre' := Titles(es[1..][..q']);
      assert forall k :: 0 <= k < q' ==> pre'[k] == pre[k + 1];
      assert pre[0] == e.title;
      if es[q].title !in m {
        assert es[q] == es[1..][q'];
        if es[q].title == e.title {
          assert es[q].title in pre;
        } else {
          var k :| 0 <= k < |pre'| && pre'[k] == es[q].title;
          assert pre[k + 1] == es[q].title;
        }
      }
      forall i, j | 0 <= i < j < |pre| ensures pre[i] != pre[j] {
        if i > 0 { assert pre'[i - 1] == pre[i]; }
        assert pre'[j - 1] == pre[j];
      }
      forall i | 0 <= i < |pre| ensures pre[i] !in m {
        if i > 0 { assert pre'[i - 1] == pre[i]; }
      }
    }
  }

  // ---------------------------------------------------------------------------
  // Scan order: where each listed name sits among the entries

  /** The position of name `j` of list `i` in scan order. */
  function Position(lists: seq<seq<string>>, i: nat, j: nat): nat
    requires i <= |lists|
  {
    TotalTitles(lists[..i]) + j
  }

  lemma {:induction false} PrefixTail(lists: seq<seq<string>>, i: nat)
    requires 0 < i <= |lists|
    ensures TotalTitles(lists[..i]) == |lists[0]| + TotalTitles(lists[1..][..i - 1])
  {
    assert lists[..i][1..] == lists[1..][..i - 1];
  }

  /** There is one entry per listed name. */
  lemma {:induction false} EntriesLength(lists: seq<seq<string>>, first: nat)
    requires first + |lists| <= MAX_LAYERS
    ensures |Entries(lists, first)| == TotalTitles(lists)
    decreases |lists|
  {
    if lists != [] { EntriesLength(lists[1..], first + 1); }
  }

  /** Name `j` of list `i` is the entry at `Position(lists, i, j)`, filed under layer
      `first + i` at index `j`. */
  lemma {:induction false} EntryAt(lists: seq<seq<string>>, first: nat, i: nat, j: nat)
    requires first + |lists| <= MAX_LAYERS
    requires i < |lists| && j < |lists[i]|
    ensures Position(lists, i, j) < |Entries(lists, first)|
    ensures Entries(lists, first)[Position(lists, i, j)] == Entry(lists[i][j], (first + i) as Layer, j)
    decreases i
  {
    var head := ListEntries(lists[0], first as Layer);
    if i == 0 {
      assert lists[..0] == [];
    } else {
      EntryAt(lists[1..], first + 1, i - 1, j);
      PrefixTail(lists, i);
    }
  }

  /** Every entry is some listed name, filed under its list's layer at its index. */
  lemma {:induction false} EntryOrigin(lists: seq<seq<string>>, first: nat, p: nat) returns (i: nat, j: nat)
    requires first + |lists| <= MAX_LAYERS
    requires p < |Entries(lists, first)|
    ensures i < |lists| && j < |lists[i]|
    ensures p == Position(lists, i, j)
    ensures Entries(lists, first)[p] == Entry(lists[i][j], (first + i) as Layer, j)
    decreases |lists|
  {
    if p < |lists[0]| {
      i, j := 0, p;
      assert lists[..0] == [];
    } else {
      var i', j' := EntryOrigin(lists[1..], first + 1, p - |lists[0]|);
      i, j := i' + 1, j';
      PrefixTail(lists, i);
    }
  }

  // ---------------------------------------------------------------------------
  // What `into_map` promises

  /** No name is listed twice, whether within one list or across two lists. */
  ghost predicate UniqueTitles(lists: seq<seq<string>>)
  {
    forall i, j, i2, j2 ::
      && 0 <= i < |lists| && 0 <= j < |lists[i]|
      && 0 <= i2 < |lists| && 0 <= j2 < |lists[i2]|
      && (i, j) != (i2, j2)
      ==> lists[i][j] != lists[i2][j2]
  }

  /** The table builds exactly when no name is listed twice. */
  lemma BuildSucceedsIffUnique(layers: seq<seq<string>>)
    requires |layers| < MAX_LAYERS
    ensures BuildTitleMap(layers).Ok? <==> UniqueTitles(layers)
  {
    var es := Entries(layers, 1);
    var ts := Titles(es);
    InsertAllSucceeds(map[], es);
    if BuildTitleMap(layers).Ok? {
      forall i, j, i2, j2 |
        0 <= i < |layers| && 0 <= j < |layers[i]| && 0 <= i2 < |layers| && 0 <= j2 < |layers[i2]| &&
        (i, j) != (i2, j2)
        ensures layers[i][j] != layers[i2][j2]
      {
        EntryAt(layers, 1, i, j);
        EntryAt(layers, 1, i2, j2);
        var p, q := Position(layers, i, j), Position(layers, i2, j2);
        assert es[p] != es[q];
        assert ts[p] == layers[i][j] && ts[q] == layers[i2][j2];
      }
    }
    if UniqueTitles(layers) {
      forall p, q | 0 <= p < q < |ts| ensures ts[p] != ts[q] {
        var i, j := EntryOrigin(layers, 1, p);
        var i2, j2 := EntryOrigin(layers, 1, q);
      }
    }
  }

  /** A built table files every listed name under its list's layer (never `Zero`),
      holds no other name, and has one slot per listed name: nothing was overwritten. */
  lemma BuildSuccess(layers: seq<seq<string>>)
    requires |layers| < MAX_LAYERS
    requires BuildTitleMap(layers).Ok?
    ensures var r := BuildTitleMap(layers).value;
      && (forall i, j :: 0 <= i < |layers| && 0 <= j < |layers[i]| ==>
            LayerFor(r, layers[i][j]) == Some((i + 1) as Layer))
      && r.Keys == AllTitles(layers)
      && (forall wmClass :: wmClass !in AllTitles(layers) ==> LayerFor(r, wmClass) == None)
      && (forall t :: t in r ==> r[t] != Zero)
      && |r| == TotalTitles(layers)
  {
    var es := Entries(layers, 1);
    var r := BuildTitleMap(layers).value;
    InsertAllContents(map[], es);
    EntriesLength(layers, 1);
    forall i, j | 0 <= i < |layers| && 0 <= j < |layers[i]|
      ensures layers[i][j] in r && r[layers[i][j]] == (i + 1) as Layer
    {
      EntryAt(layers, 1, i, j);
    }
    forall t | t in r ensures t in AllTitles(layers) && r[t] != Zero {
      var ts := Titles(es);
      var p :| 0 <= p < |ts| && ts[p] == t;
      var i, j := EntryOrigin(layers, 1, p);
    }
  }

  /** A failed build names the first name, in scan order, that repeats an earlier one,
      with the layer and index of that second occurrence. */
  lemma BuildFailure(layers: seq<seq<string>>) returns (i: nat, j: nat)
    requires |layers| < MAX_LAYERS
    requires BuildTitleMap(layers).Err?
    ensures i < |layers| && j < |layers[i]|
    ensures BuildTitleMap(layers).error == DuplicateTitle(layers[i][j], (i + 1) as Layer, j)
    ensures var ts := Titles(Entries(layers, 1)); var q := Position(layers, i, j);
      && q < |ts| && ts[q] == layers[i][j]
      && layers[i][j] in ts[..q]
      && FreshAndDistinct({}, ts[..q])
  {
    var es := Entries(layers, 1);
    var q := InsertAllFailure(map[], es);
    i, j := EntryOrigin(layers, 1, q);
    assert Titles(es[..q]) == Titles(es)[..q];
  }
}

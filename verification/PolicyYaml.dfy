/** internal/policy/yaml_loader.go: tag defaults as the lowest policy layer, and histories of all policy operations. */
module PolicyYaml {
  import opened Names
  import opened Options
  import opened Policy

  /** The masks of policies.yaml by tag, and the assets carrying a tag. */
  type Masks = map<string, string>

  type Tagged = map<string, seq<string>>

  /** One iteration of the innermost loop. */
  datatype Load = Load(tag: string, asset: string, column: string, mask: string)

  function YamlKey(asset: string, column: string): Key {
    Key(asset, column, YamlDefault)
  }

  function LoadOne(s: State, l: Load, now: int): State {
    var k := YamlKey(l.asset, l.column);
    var had := Find(s.rows, k);
    if had.Some? && had.value.mask == l.mask then TouchKey(s, k, None, now)
    else ReplaceKey(s, Row(k, l.mask, [], "", "", Unknown, now, false))
  }

  function LoadAll(s: State, loads: seq<Load>, now: int): State
    decreases |loads|
  {
    if |loads| == 0 then s else LoadOne(LoadAll(s, loads[..|loads| - 1], now), loads[|loads| - 1], now)
  }

  lemma {:induction false} LoadAppend(s: State, a: seq<Load>, b: seq<Load>, now: int)
    ensures LoadAll(s, a + b, now) == LoadAll(LoadAll(s, a, now), b, now)
    decreases |b|
  {
    if |b| == 0 {
      assert a + b == a;
    } else {
      assert (a + b)[..|a + b| - 1] == a + b[..|b| - 1];
      LoadAppend(s, a, b[..|b| - 1], now);
    }
  }

  /** yamlColumnsForAssetTag: the columns of the asset with an active row of any source. */
  function ActiveColumns(rows: seq<Row>, asset: string): set<string> {
    set r | r in rows && !r.retired && r.key.asset == asset :: r.key.column
  }

  lemma ColumnActive(rows: seq<Row>, asset: string, column: string)
    ensures column in ActiveColumns(rows, asset) <==> exists src :: Find(rows, Key(asset, column, src)).Some?
  {
    if column in ActiveColumns(rows, asset) {
      var r :| r in rows && !r.retired && r.key.asset == asset && r.key.column == column;
      var i :| 0 <= i < |rows| && rows[i] == r;
      var src := r.key.source;
      FindExactly(rows, Key(asset, column, src));
      assert Hits(rows[i], Key(asset, column, src));
      assert Find(rows, Key(asset, column, src)).Some?;
    }
    if src :| Find(rows, Key(asset, column, src)).Some? {
      FindExactly(rows, Key(asset, column, src));
      var r := Find(rows, Key(asset, column, src)).value;
      assert r in rows && !r.retired && r.key.asset == asset && r.key.column == column;
    }
  }

  ghost predicate Loaded(s: State, l: Load) {
    var had := Find(s.rows, YamlKey(l.asset, l.column));
    had.Some? && had.value.mask == l.mask
  }

  lemma LoadOneEffect(s: State, l: Load, now: int)
    requires OneActive(s.rows)
    ensures var t := LoadOne(s, l, now);
      var written := if Loaded(s, l) then 0 else 1;
      && OneActive(t.rows) && Evolves(s, t) && |t.rows| == |s.rows| + written && |t.audit| == |s.audit| + written
      && Loaded(t, l)
      && forall j :: j != YamlKey(l.asset, l.column) ==> Find(t.rows, j) == Find(s.rows, j)
    ensures Loaded(s, l) ==> forall m: Load :: Loaded(s, m) ==> Loaded(LoadOne(s, l, now), m)
  {
    var k := YamlKey(l.asset, l.column);
    if Loaded(s, l) {
      TouchKeyEffect(s, k, None, now);
      var t := LoadOne(s, l, now);
      assert Find(t.rows, k) == TouchedRow(s, k, None, now, k);
      forall j | j != k
        ensures Find(t.rows, j) == Find(s.rows, j)
      {
        assert Find(t.rows, j) == TouchedRow(s, k, None, now, j);
      }
    } else {
      ReplaceKeyEffect(s, Row(k, l.mask, [], "", "", Unknown, now, false));
    }
  }

  /** A column loaded carries the tag's mask, seen now: a row with that mask already is kept, any other is replaced by
      one without roles or code, not yet enforced, and the change is audited. */
  lemma LoadedRowExactly(s: State, l: Load, now: int)
    requires OneActive(s.rows)
    ensures var t, k := LoadOne(s, l, now), Key(l.asset, l.column, YamlDefault);
      var had := Find(s.rows, k);
      if had.Some? && had.value.mask == l.mask then
        Find(t.rows, k) == Some(had.value.(lastSeen := now)) && t.audit == s.audit
      else
        && Find(t.rows, k) == Some(Row(k, l.mask, [], "", "", Unknown, now, false))
        && t.audit == s.audit + [Changed(k, if had.Some? then Some(had.value.mask) else None, l.mask)]
  {
    var k := YamlKey(l.asset, l.column);
    if Loaded(s, l) {
      TouchKeyEffect(s, k, None, now);
      assert Find(LoadOne(s, l, now).rows, k) == TouchedRow(s, k, None, now, k);
    } else {
      ReplaceKeyEffect(s, Row(k, l.mask, [], "", "", Unknown, now, false));
    }
  }

  /** Every load is of a column that already has an active row. */
  ghost predicate OfActive(rows: seq<Row>, loads: seq<Load>) {
    forall l | l in loads :: l.column in ActiveColumns(rows, l.asset)
  }

  lemma LoadOneKeepsColumns(s: State, l: Load, now: int, asset: string)
    requires OneActive(s.rows) && l.column in ActiveColumns(s.rows, l.asset)
    ensures ActiveColumns(LoadOne(s, l, now).rows, asset) == ActiveColumns(s.rows, asset)
  {
    var t := LoadOne(s, l, now);
    LoadOneEffect(s, l, now);
    forall c
      ensures c in ActiveColumns(t.rows, asset) <==> c in ActiveColumns(s.rows, asset)
    {
      ColumnActive(s.rows, asset, c);
      ColumnActive(t.rows, asset, c);
      forall src | Key(asset, c, src) != YamlKey(l.asset, l.column)
        ensures Find(t.rows, Key(asset, c, src)) == Find(s.rows, Key(asset, c, src))
      {}
    }
  }

  lemma {:induction false} LoadsEffect(s: State, loads: seq<Load>, now: int)
    requires OneActive(s.rows) && OfActive(s.rows, loads)
    ensures var t := LoadAll(s, loads, now);
      && OneActive(t.rows) && Evolves(s, t) && |t.rows| - |s.rows| == |t.audit| - |s.audit|
      && (forall j: Key :: j.source != YamlDefault ==> Find(t.rows, j) == Find(s.rows, j))
    ensures forall asset :: ActiveColumns(LoadAll(s, loads, now).rows, asset) == ActiveColumns(s.rows, asset)
    decreases |loads|
  {
    if |loads| > 0 {
      var front, last := loads[..|loads| - 1], loads[|loads| - 1];
      assert loads == front + [last];
      LoadsEffect(s, front, now);
      var mid := LoadAll(s, front, now);
      LoadOneEffect(mid, last, now);
      EvolvesOn(s, mid, LoadOne(mid, last, now));
      forall asset {
        LoadOneKeepsColumns(mid, last, now, asset);
      }
    }
  }

  // ----- The plan of a reload -----

  function ColumnLoads(tag: string, asset: string, mask: string, columns: seq<string>): (loads: seq<Load>)
    ensures |loads| == |columns| && forall i | 0 <= i < |loads| :: loads[i] == Load(tag, asset, columns[i], mask)
  {
    seq(|columns|, i requires 0 <= i < |columns| => Load(tag, asset, columns[i], mask))
  }

  ghost function AssetLoads(rows: seq<Row>, tag: string, mask: string, assets: seq<string>): seq<Load>
    decreases |assets|
  {
    if |assets| == 0 then []
    else
      var a := assets[|assets| - 1];
      AssetLoads(rows, tag, mask, assets[..|assets| - 1]) + ColumnLoads(tag, a, mask, Sorted(ActiveColumns(rows, a)))
  }

  function AssetsOf(tagged: Tagged, tag: string): seq<string> {
    if tag in tagged then tagged[tag] else []
  }

  ghost function TagLoads(rows: seq<Row>, masks: Masks, tagged: Tagged, tags: seq<string>): seq<Load>
    requires forall t | t in tags :: t in masks
    decreases |tags|
  {
    if |tags| == 0 then []
    else
      var t := tags[|tags| - 1];
      TagLoads(rows, masks, tagged, tags[..|tags| - 1]) + AssetLoads(rows, t, masks[t], AssetsOf(tagged, t))
  }

  /** Tags in sorted order, assets as selected, columns in sorted order. */
  ghost function Plan(rows: seq<Row>, masks: Masks, tagged: Tagged): seq<Load> {
    TagLoads(rows, masks, tagged, Sorted(masks.Keys))
  }

  lemma {:induction false} AssetLoadsMembers(rows: seq<Row>, tag: string, mask: string, assets: seq<string>, l: Load)
    ensures l in AssetLoads(rows, tag, mask, assets)
      <==> l.tag == tag && l.mask == mask && l.asset in assets && l.column in ActiveColumns(rows, l.asset)
    decreases |assets|
  {
    if |assets| > 0 {
      var front, a := assets[..|assets| - 1], assets[|assets| - 1];
      AssetLoadsMembers(rows, tag, mask, front, l);
      assert assets == front + [a];
      var names := Sorted(ActiveColumns(rows, a));
      var more := ColumnLoads(tag, a, mask, names);
      if l.tag == tag && l.mask == mask && l.asset == a && l.column in names {
        var i :| 0 <= i < |names| && names[i] == l.column;
        assert more[i] == l;
      }
    }
  }

  lemma {:induction false} TagLoadsMembers(rows: seq<Row>, masks: Masks, tagged: Tagged, tags: seq<string>, l: Load)
    requires forall t | t in tags :: t in masks
    ensures l in TagLoads(rows, masks, tagged, tags)
      <==> l.tag in tags && l.mask == masks[l.tag] && l.asset in AssetsOf(tagged, l.tag)
           && l.column in ActiveColumns(rows, l.asset)
    decreases |tags|
  {
    if |tags| > 0 {
      var front, t := tags[..|tags| - 1], tags[|tags| - 1];
      assert tags == front + [t];
      TagLoadsMembers(rows, masks, tagged, front, l);
      AssetLoadsMembers(rows, t, masks[t], AssetsOf(tagged, t), l);
    }
  }

  lemma {:induction false} SameColumnsSameLoads(rows: seq<Row>, later: seq<Row>, masks: Masks, tagged: Tagged,
                                                tags: seq<string>)
    requires forall t | t in tags :: t in masks
    requires forall asset :: ActiveColumns(rows, asset) == ActiveColumns(later, asset)
    ensures TagLoads(rows, masks, tagged, tags) == TagLoads(later, masks, tagged, tags)
    decreases |tags|
  {
    if |tags| > 0 {
      var t := tags[|tags| - 1];
      SameColumnsSameLoads(rows, later, masks, tagged, tags[..|tags| - 1]);
      SameColumnsSameAssetLoads(rows, later, t, masks[t], AssetsOf(tagged, t));
    }
  }

  lemma {:induction false} SameColumnsSameAssetLoads(rows: seq<Row>, later: seq<Row>, tag: string, mask: string,
                                                     assets: seq<string>)
    requires forall asset :: ActiveColumns(rows, asset) == ActiveColumns(later, asset)
    ensures AssetLoads(rows, tag, mask, assets) == AssetLoads(later, tag, mask, assets)
    decreases |assets|
  {
    if |assets| > 0 {
      SameColumnsSameAssetLoads(rows, later, tag, mask, assets[..|assets| - 1]);
    }
  }

  // ----- ApplyYAML -----

  /** Inserts, replaces or touches the yaml-default row of one column; counts a write. */
  method LoadColumn(store: Store, l: Load, now: int) returns (written: int)
    requires OneActive(store.rows)
    modifies store
    ensures store.Value() == LoadOne(old(store.Value()), l, now)
    ensures written == |store.rows| - |old(store.rows)|
  {
    var k := YamlKey(l.asset, l.column);
    LoadOneEffect(store.Value(), l, now);
    var before := Find(store.rows, k);
    match before
    case None =>
      store.rows := store.rows + [Row(k, l.mask, [], "", "", Unknown, now, false)];
      store.audit := store.audit + [Changed(k, None, l.mask)];
      written := 1;
    case Some(r) =>
      if r.mask == l.mask {
        store.rows := Update(store.rows, k, Touch(None, now));
        written := 0;
      } else {
        store.rows := Update(store.rows, k, Retire);
        store.rows := store.rows + [Row(k, l.mask, [], "", "", Unknown, now, false)];
        store.audit := store.audit + [Changed(k, Some(r.mask), l.mask)];
        written := 1;
      }
  }

  method LoadAsset(store: Store, tag: string, asset: string, mask: string, now: int) returns (written: int)
    requires OneActive(store.rows)
    modifies store
    ensures var loads := ColumnLoads(tag, asset, mask, Sorted(ActiveColumns(old(store.rows), asset)));
      store.Value() == LoadAll(old(store.Value()), loads, now)
    ensures written == |store.rows| - |old(store.rows)|
  {
    ghost var s := store.Value();
    var columns := SortedKeys(ActiveColumns(store.rows, asset));
    ghost var loads := ColumnLoads(tag, asset, mask, columns);
    written := 0;
    for i := 0 to |columns|
      invariant store.Value() == LoadAll(s, loads[..i], now)
      invariant OneActive(store.rows)
      invariant written == |store.rows| - |s.rows|
    {
      assert loads[..i + 1][..i] == loads[..i];
      LoadOneEffect(store.Value(), loads[i], now);
      var more := LoadColumn(store, Load(tag, asset, columns[i], mask), now);
      written := written + more;
    }
    assert loads[..|columns|] == loads;
  }

  method LoadTag(store: Store, tag: string, mask: string, assets: seq<string>, now: int) returns (written: int)
    requires OneActive(store.rows)
    modifies store
    ensures store.Value() == LoadAll(old(store.Value()), AssetLoads(old(store.rows), tag, mask, assets), now)
    ensures written == |store.rows| - |old(store.rows)|
  {
    ghost var s := store.Value();
    written := 0;
    for i := 0 to |assets|
      invariant store.Value() == LoadAll(s, AssetLoads(s.rows, tag, mask, assets[..i]), now)
      invariant OneActive(store.rows)
      invariant written == |store.rows| - |s.rows|
    {
      assert assets[..i + 1][..i] == assets[..i];
      ghost var so_far := AssetLoads(s.rows, tag, mask, assets[..i]);
      AssetLoadsAreActive(s.rows, tag, mask, assets[..i]);
      LoadsEffect(s, so_far, now);
      ghost var loads := ColumnLoads(tag, assets[i], mask, Sorted(ActiveColumns(s.rows, assets[i])));
      LoadAppend(s, so_far, loads, now);
      AssetLoadsAreActive(s.rows, tag, mask, assets[..i + 1]);
      LoadsEffect(s, so_far + loads, now);
      var more := LoadAsset(store, tag, assets[i], mask, now);
      written := written + more;
    }
    assert assets[..|assets|] == assets;
  }

  lemma AssetLoadsAreActive(rows: seq<Row>, tag: string, mask: string, assets: seq<string>)
    ensures OfActive(rows, AssetLoads(rows, tag, mask, assets))
  {
    forall l | l in AssetLoads(rows, tag, mask, assets)
      ensures l.column in ActiveColumns(rows, l.asset)
    {
      AssetLoadsMembers(rows, tag, mask, assets, l);
    }
  }

  lemma TagLoadsAreActive(rows: seq<Row>, masks: Masks, tagged: Tagged, tags: seq<string>)
    requires forall t | t in tags :: t in masks
    ensures OfActive(rows, TagLoads(rows, masks, tagged, tags))
  {
    forall l | l in TagLoads(rows, masks, tagged, tags)
      ensures l.column in ActiveColumns(rows, l.asset)
    {
      TagLoadsMembers(rows, masks, tagged, tags, l);
    }
  }

  /** t is s after the loads of some tags. */
  ghost predicate LoadedTags(s: State, t: State, masks: Masks, tagged: Tagged, tags: seq<string>, now: int) {
    && (forall g | g in tags :: g in masks)
    && t == LoadAll(s, TagLoads(s.rows, masks, tagged, tags), now)
    && OneActive(t.rows)
  }

  lemma OneTagMore(s: State, mid: State, masks: Masks, tagged: Tagged, tags: seq<string>, tag: string, now: int)
    requires OneActive(s.rows) && tag in masks && LoadedTags(s, mid, masks, tagged, tags, now)
    ensures LoadedTags(s, LoadAll(mid, AssetLoads(mid.rows, tag, masks[tag], AssetsOf(tagged, tag)), now),
                       masks, tagged, tags + [tag], now)
  {
    var so_far := TagLoads(s.rows, masks, tagged, tags);
    TagLoadsAreActive(s.rows, masks, tagged, tags);
    LoadsEffect(s, so_far, now);
    SameColumnsSameAssetLoads(s.rows, mid.rows, tag, masks[tag], AssetsOf(tagged, tag));
    LoadAppend(s, so_far, AssetLoads(s.rows, tag, masks[tag], AssetsOf(tagged, tag)), now);
    assert (tags + [tag])[..|tags|] == tags;
    TagLoadsAreActive(s.rows, masks, tagged, tags + [tag]);
    LoadsEffect(s, TagLoads(s.rows, masks, tagged, tags + [tag]), now);
  }

  method LoadNextTag(store: Store, masks: Masks, tagged: Tagged, tag: string, now: int, ghost s: State,
                     ghost tags: seq<string>)
    returns (written: int)
    requires OneActive(s.rows) && tag in masks && LoadedTags(s, store.Value(), masks, tagged, tags, now)
    modifies store
    ensures LoadedTags(s, store.Value(), masks, tagged, tags + [tag], now)
    ensures written == |store.rows| - |old(store.rows)|
  {
    OneTagMore(s, store.Value(), masks, tagged, tags, tag, now);
    written := LoadTag(store, tag, masks[tag], AssetsOf(tagged, tag), now);
  }

  method LoadTags(store: Store, masks: Masks, tagged: Tagged, tags: seq<string>, now: int) returns (written: int)
    requires OneActive(store.rows) && forall t | t in tags :: t in masks
    modifies store
    ensures LoadedTags(old(store.Value()), store.Value(), masks, tagged, tags, now)
    ensures written == |store.rows| - |old(store.rows)|
  {
    ghost var s := store.Value();
    ghost var done: seq<string> := [];
    written := 0;
    for i := 0 to |tags|
      invariant done == tags[..i]
      invariant LoadedTags(s, store.Value(), masks, tagged, done, now)
      invariant written == |store.rows| - |s.rows|
    {
      var more := LoadNextTag(store, masks, tagged, tags[i], now, s, done);
      done := done + [tags[i]];
      written := written + more;
    }
    assert done == tags;
  }

  /** ApplyYAML of a validated configuration: it carries out the plan and returns the number of rows it wrote. */
  method ApplyYAML(store: Store, masks: Masks, tagged: Tagged, now: int) returns (applied: int)
    requires OneActive(store.rows) && forall t | t in masks :: ValidMask(masks[t])
    modifies store
    ensures store.Value() == LoadAll(old(store.Value()), Plan(old(store.rows), masks, tagged), now)
    ensures applied == |store.rows| - |old(store.rows)|
  {
    var tags := SortedKeys(masks.Keys);
    applied := LoadTags(store, masks, tagged, tags, now);
  }

  // ----- When a reload is quiet -----

  /** A reload writes nothing exactly when every column it visits already has the mask it would get. */
  lemma {:induction false} QuietExactly(s: State, loads: seq<Load>, now: int)
    requires OneActive(s.rows) && OfActive(s.rows, loads)
    ensures |LoadAll(s, loads, now).rows| == |s.rows| <==> forall l | l in loads :: Loaded(s, l)
    ensures |LoadAll(s, loads, now).rows| == |s.rows| ==>
              forall m: Load :: Loaded(s, m) <==> Loaded(LoadAll(s, loads, now), m)
    decreases |loads|
  {
    if |loads| > 0 {
      var front, last := loads[..|loads| - 1], loads[|loads| - 1];
      assert loads == front + [last];
      QuietExactly(s, front, now);
      LoadsEffect(s, front, now);
      var mid := LoadAll(s, front, now);
      LoadOneEffect(mid, last, now);
      if Loaded(mid, last) {
        QuietLoad(mid, last, now);
      }
    }
  }

  lemma QuietLoad(s: State, l: Load, now: int)
    requires OneActive(s.rows) && Loaded(s, l)
    ensures forall m: Load :: Loaded(s, m) <==> Loaded(LoadOne(s, l, now), m)
  {
    var k := YamlKey(l.asset, l.column);
    TouchKeyEffect(s, k, None, now);
    forall m: Load
      ensures Loaded(s, m) <==> Loaded(LoadOne(s, l, now), m)
    {
      assert Find(LoadOne(s, l, now).rows, YamlKey(m.asset, m.column))
             == TouchedRow(s, k, None, now, YamlKey(m.asset, m.column));
    }
  }

  /** No two loads ask for different masks on one column. */
  ghost predicate Agreeing(loads: seq<Load>) {
    forall l, m | l in loads && m in loads && l.asset == m.asset && l.column == m.column :: l.mask == m.mask
  }

  /** A load settles its own column and leaves every other load's mask in place. */
  lemma LoadSettles(s: State, last: Load, now: int, l: Load)
    requires OneActive(s.rows)
    requires if l.asset == last.asset && l.column == last.column then l.mask == last.mask else Loaded(s, l)
    ensures Loaded(LoadOne(s, last, now), l)
  {
    LoadOneEffect(s, last, now);
    if l.asset != last.asset || l.column != last.column {
      assert YamlKey(l.asset, l.column) != YamlKey(last.asset, last.column);
    }
  }

  lemma {:induction false} AgreeingLoadsSettle(s: State, loads: seq<Load>, now: int, l: Load)
    requires OneActive(s.rows) && OfActive(s.rows, loads) && Agreeing(loads) && l in loads
    ensures Loaded(LoadAll(s, loads, now), l)
    decreases |loads|
  {
    var front, last := loads[..|loads| - 1], loads[|loads| - 1];
    assert loads == front + [last];
    assert last in loads;
    LoadsEffect(s, front, now);
    if l.asset != last.asset || l.column != last.column {
      AgreeingLoadsSettle(s, front, now, l);
    }
    LoadSettles(LoadAll(s, front, now), last, now, l);
  }

  /** No asset with a policed column carries two tags with different masks. */
  ghost predicate TagsAgree(rows: seq<Row>, masks: Masks, tagged: Tagged) {
    forall t, u, asset | t in masks && u in masks && asset in AssetsOf(tagged, t) && asset in AssetsOf(tagged, u)
      && ActiveColumns(rows, asset) != {} :: masks[t] == masks[u]
  }

  lemma PlanMembers(rows: seq<Row>, masks: Masks, tagged: Tagged, l: Load)
    ensures l in Plan(rows, masks, tagged)
      <==> l.tag in masks && l.mask == masks[l.tag] && l.asset in AssetsOf(tagged, l.tag)
           && l.column in ActiveColumns(rows, l.asset)
  {
    TagLoadsMembers(rows, masks, tagged, Sorted(masks.Keys), l);
  }

  lemma PlanAgreesExactly(rows: seq<Row>, masks: Masks, tagged: Tagged)
    ensures Agreeing(Plan(rows, masks, tagged)) <==> TagsAgree(rows, masks, tagged)
  {
    var loads := Plan(rows, masks, tagged);
    if TagsAgree(rows, masks, tagged) {
      forall l, m | l in loads && m in loads && l.asset == m.asset && l.column == m.column
        ensures l.mask == m.mask
      {
        PlanMembers(rows, masks, tagged, l);
        PlanMembers(rows, masks, tagged, m);
      }
    }
    if Agreeing(loads) {
      forall t, u, asset | t in masks && u in masks && asset in AssetsOf(tagged, t) && asset in AssetsOf(tagged, u)
        && ActiveColumns(rows, asset) != {}
        ensures masks[t] == masks[u]
      {
        var c :| c in ActiveColumns(rows, asset);
        var l, m := Load(t, asset, c, masks[t]), Load(u, asset, c, masks[u]);
        PlanMembers(rows, masks, tagged, l);
        PlanMembers(rows, masks, tagged, m);
        assert l in loads && m in loads;
      }
    }
  }

  /** Reloading an unchanged configuration writes nothing exactly when no asset with a policed column carries two tags
      with different masks; otherwise every reload replaces such a column's default once per disagreeing tag. The
      promised idempotence is the first case. */
  lemma ReloadIsQuietExactly(s: State, masks: Masks, tagged: Tagged, now: int, later: int)
    requires OneActive(s.rows)
    ensures var t := LoadAll(s, Plan(s.rows, masks, tagged), now);
      |LoadAll(t, Plan(t.rows, masks, tagged), later).rows| == |t.rows| <==> TagsAgree(s.rows, masks, tagged)
  {
    var loads := Plan(s.rows, masks, tagged);
    var t := LoadAll(s, loads, now);
    TagLoadsAreActive(s.rows, masks, tagged, Sorted(masks.Keys));
    LoadsEffect(s, loads, now);
    SameColumnsSameLoads(s.rows, t.rows, masks, tagged, Sorted(masks.Keys));
    QuietExactly(t, loads, later);
    PlanAgreesExactly(s.rows, masks, tagged);
    if Agreeing(loads) {
      forall l | l in loads
        ensures Loaded(LoadAll(s, loads, now), l)
      {
        AgreeingLoadsSettle(s, loads, now, l);
      }
    }
  }

  // ----- What a reload leaves -----

  ghost predicate Visits(loads: seq<Load>, asset: string, column: string) {
    exists l :: l in loads && l.asset == asset && l.column == column
  }

  /** The column's yaml row carries this mask and was seen now. */
  predicate CarriesNow(s: State, asset: string, column: string, mask: string, now: int) {
    var r := Find(s.rows, Key(asset, column, YamlDefault));
    r.Some? && r.value.mask == mask && r.value.lastSeen == now
  }

  lemma {:induction false} LoadsKeepActive(s: State, loads: seq<Load>, now: int)
    requires OneActive(s.rows)
    ensures OneActive(LoadAll(s, loads, now).rows)
    decreases |loads|
  {
    if |loads| > 0 {
      LoadsKeepActive(s, loads[..|loads| - 1], now);
      LoadOneEffect(LoadAll(s, loads[..|loads| - 1], now), loads[|loads| - 1], now);
    }
  }

  lemma {:induction false} LoadsSettle(s: State, loads: seq<Load>, now: int, asset: string, column: string,
                                       mask: string)
    requires OneActive(s.rows)
    requires forall l | l in loads && l.asset == asset && l.column == column :: l.mask == mask
    ensures var t, k := LoadAll(s, loads, now), Key(asset, column, YamlDefault);
      if Visits(loads, asset, column) then CarriesNow(t, asset, column, mask, now)
      else Find(t.rows, k) == Find(s.rows, k)
    decreases |loads|
  {
    if |loads| > 0 {
      var front, last := loads[..|loads| - 1], loads[|loads| - 1];
      assert loads == front + [last];
      LoadsKeepActive(s, front, now);
      LoadsSettle(s, front, now, asset, column, mask);
      LoadedRowExactly(LoadAll(s, front, now), last, now);
      LoadOneEffect(LoadAll(s, front, now), last, now);
      if last.asset == asset && last.column == column {
        assert last in loads;
      } else {
        assert Visits(loads, asset, column) <==> Visits(front, asset, column);
      }
    }
  }

  lemma AssetLoadsVisit(rows: seq<Row>, tag: string, mask: string, assets: seq<string>, asset: string, column: string)
    ensures Visits(AssetLoads(rows, tag, mask, assets), asset, column)
      <==> asset in assets && column in ActiveColumns(rows, asset)
    ensures forall l | l in AssetLoads(rows, tag, mask, assets) :: l.mask == mask
  {
    var loads := AssetLoads(rows, tag, mask, assets);
    AssetLoadsMembers(rows, tag, mask, assets, Load(tag, asset, column, mask));
    forall l | l in loads
      ensures l.mask == mask && l.asset in assets && l.column in ActiveColumns(rows, l.asset)
    {
      AssetLoadsMembers(rows, tag, mask, assets, l);
    }
  }

  /** Of the tags loaded one after the other, the last that the asset carries decides its policed columns. */
  lemma {:induction false} LastTagDecides(s: State, rows: seq<Row>, masks: Masks, tagged: Tagged, tags: seq<string>,
                                          now: int, asset: string, column: string, i: nat)
    requires OneActive(s.rows) && i < |tags| && forall t | t in tags :: t in masks
    requires asset in AssetsOf(tagged, tags[i]) && column in ActiveColumns(rows, asset)
    requires forall j | i < j < |tags| :: asset !in AssetsOf(tagged, tags[j])
    ensures CarriesNow(LoadAll(s, TagLoads(rows, masks, tagged, tags), now), asset, column, masks[tags[i]], now)
    decreases |tags|
  {
    var front, t := tags[..|tags| - 1], tags[|tags| - 1];
    var before, more := TagLoads(rows, masks, tagged, front), AssetLoads(rows, t, masks[t], AssetsOf(tagged, t));
    LoadAppend(s, before, more, now);
    LoadsKeepActive(s, before, now);
    AssetLoadsVisit(rows, t, masks[t], AssetsOf(tagged, t), asset, column);
    LoadsSettle(LoadAll(s, before, now), more, now, asset, column, masks[t]);
    if i < |tags| - 1 {
      LastTagDecides(s, rows, masks, tagged, front, now, asset, column, i);
    }
  }

  /** What a reload leaves of a column with an active row, whose asset carries the tag: if no tag of the configuration
      that comes later by name is carried by the asset too, the column's default is this tag's mask. */
  lemma LastTagWins(s: State, masks: Masks, tagged: Tagged, now: int, asset: string, column: string, tag: string)
    requires OneActive(s.rows) && tag in masks && tag in tagged && asset in tagged[tag]
    requires exists r :: r in s.rows && !r.retired && r.key.asset == asset && r.key.column == column
    requires forall u | u in masks && u in tagged && asset in tagged[u] :: Leq(u, tag)
    ensures var r := Find(LoadAll(s, Plan(s.rows, masks, tagged), now).rows, Key(asset, column, YamlDefault));
      r.Some? && r.value.mask == masks[tag] && r.value.lastSeen == now
  {
    var tags := Sorted(masks.Keys);
    assert tag in tags;
    var i :| 0 <= i < |tags| && tags[i] == tag;
    forall j | i < j < |tags|
      ensures asset !in AssetsOf(tagged, tags[j])
    {
      assert tags[j] in tags;
      LeqTotal(tags[i], tags[j]);
    }
    LastTagDecides(s, s.rows, masks, tagged, tags, now, asset, column, i);
  }

  /** A reload visits exactly the columns with an active row of the assets that carry a tag of the configuration; the
      defaults of all others stay as they are. */
  lemma OthersKeepDefault(s: State, masks: Masks, tagged: Tagged, now: int, asset: string, column: string)
    requires OneActive(s.rows)
    requires (forall t | t in masks && t in tagged :: asset !in tagged[t])
             || forall r | r in s.rows && r.key.asset == asset && r.key.column == column :: r.retired
    ensures var k := Key(asset, column, YamlDefault);
      Find(LoadAll(s, Plan(s.rows, masks, tagged), now).rows, k) == Find(s.rows, k)
  {
    var loads := Plan(s.rows, masks, tagged);
    forall l | l in loads
      ensures l.asset != asset || l.column != column
    {
      PlanMembers(s.rows, masks, tagged, l);
    }
    LoadsSettle(s, loads, now, asset, column, "");
  }

  /** The yaml layer never shows through a higher one. */
  lemma YamlKeepsHigherLayers(s: State, masks: Masks, tagged: Tagged, now: int, asset: string, column: string)
    requires OneActive(s.rows)
    requires Find(s.rows, Key(asset, column, Runtime)).Some? || Find(s.rows, Key(asset, column, Builder)).Some?
    ensures Resolved(LoadAll(s, Plan(s.rows, masks, tagged), now).rows, asset, column)
            == Resolved(s.rows, asset, column)
  {
    TagLoadsAreActive(s.rows, masks, tagged, Sorted(masks.Keys));
    LoadsEffect(s, Plan(s.rows, masks, tagged), now);
  }

  // ----- Histories -----

  datatype Op =
    | Applies(asset: string, codeHash: string, want: map<string, Declared>, now: int)
    | Patches(row: Row)
    | Deletes(asset: string, column: string)
    | Reloads(masks: Masks, tagged: Tagged, now: int)
    | SetsMode(asset: string, column: string, mode: Mode)
    | Fails

  /** t is what a committed operation may leave of s. */
  ghost predicate Effect(s: State, op: Op, t: State) {
    match op
    case Applies(asset, codeHash, want, now) => ApplyEffect(s, t, asset, codeHash, want, now)
    case Patches(r) => r.key.source == Runtime && !r.retired && t == ReplaceKey(s, r)
    case Deletes(asset, column) => t == RemoveKey(s, Key(asset, column, Runtime))
    case Reloads(masks, tagged, now) => t == LoadAll(s, Plan(s.rows, masks, tagged), now)
    case SetsMode(asset, column, mode) => t == ModeSet(s, asset, column, mode)
    case Fails => t == s
  }

  /** What each operation leaves of the row of a key. */
  lemma EffectExactly(s: State, op: Op, t: State, k: Key)
    requires OneActive(s.rows) && Effect(s, op, t)
    ensures op.Applies? && k.asset == op.asset && k.source == Builder ==>
      (Find(t.rows, k).Some? <==> k.column in op.want)
      && (Find(t.rows, k).Some? ==> Find(t.rows, k).value.mask == op.want[k.column].mask)
    ensures op.Patches? && k == op.row.key ==> Find(t.rows, k) == Some(op.row)
    ensures op.Deletes? && k == Key(op.asset, op.column, Runtime) ==>
      Find(t.rows, k) == None && t.audit == s.audit + [Removed(k)]
    ensures op.SetsMode? && k.asset == op.asset && k.column == op.column ==>
      Find(t.rows, k) == if Find(s.rows, k).Some? then Some(Find(s.rows, k).value.(mode := op.mode)) else None
    ensures match op
      case Applies(asset, _, _, _) => k.asset != asset || k.source != Builder ==> Find(t.rows, k) == Find(s.rows, k)
      case Patches(r) => k != r.key ==> Find(t.rows, k) == Find(s.rows, k)
      case Deletes(asset, column) => k != Key(asset, column, Runtime) ==> Find(t.rows, k) == Find(s.rows, k)
      case Reloads(_, _, _) => k.source != YamlDefault ==> Find(t.rows, k) == Find(s.rows, k)
      case SetsMode(asset, column, _) =>
        k.asset != asset || k.column != column ==> Find(t.rows, k) == Find(s.rows, k)
      case Fails => t == s
  {
    match op
    case Applies(asset, codeHash, want, now) =>
      assert Find(t.rows, k) == AppliedRow(s, asset, codeHash, want, now, k);
    case Patches(r) => ReplaceKeyEffect(s, r);
    case Deletes(asset, column) => RemoveKeyEffect(s, Key(asset, column, Runtime));
    case Reloads(masks, tagged, now) =>
      TagLoadsAreActive(s.rows, masks, tagged, Sorted(masks.Keys));
      LoadsEffect(s, Plan(s.rows, masks, tagged), now);
    case SetsMode(asset, column, mode) => ModeSetFinds(s, asset, column, mode, k);
    case Fails =>
  }

  lemma ModeSetFinds(s: State, asset: string, column: string, mode: Mode, k: Key)
    ensures Find(ModeSet(s, asset, column, mode).rows, k)
         == if k.asset == asset && k.column == column && Find(s.rows, k).Some?
            then Some(Find(s.rows, k).value.(mode := mode)) else Find(s.rows, k)
  {
    var a := Update(s.rows, Key(asset, column, Runtime), SetMode(mode));
    var b := Update(a, Key(asset, column, Builder), SetMode(mode));
    FindUpdated(s.rows, Key(asset, column, Runtime), SetMode(mode), k);
    FindUpdated(a, Key(asset, column, Builder), SetMode(mode), k);
    FindUpdated(b, Key(asset, column, YamlDefault), SetMode(mode), k);
    match k.source
    case Runtime =>
    case Builder =>
    case YamlDefault =>
  }

  lemma EffectKeeps(s: State, op: Op, t: State)
    requires OneActive(s.rows) && Effect(s, op, t)
    ensures OneActive(t.rows) && Evolves(s, t)
  {
    match op
    case Applies(_, _, _, _) =>
    case Patches(r) => ReplaceKeyEffect(s, r);
    case Deletes(asset, column) => RemoveKeyEffect(s, Key(asset, column, Runtime));
    case Reloads(masks, tagged, now) =>
      TagLoadsAreActive(s.rows, masks, tagged, Sorted(masks.Keys));
      LoadsEffect(s, Plan(s.rows, masks, tagged), now);
    case SetsMode(asset, column, mode) => ModeSetKeeps(s, asset, column, mode);
    case Fails =>
  }

  lemma ModeSetKeeps(s: State, asset: string, column: string, mode: Mode)
    requires OneActive(s.rows)
    ensures OneActive(ModeSet(s, asset, column, mode).rows) && Evolves(s, ModeSet(s, asset, column, mode))
  {
    var a := s.(rows := Update(s.rows, Key(asset, column, Runtime), SetMode(mode)));
    var b := a.(rows := Update(a.rows, Key(asset, column, Builder), SetMode(mode)));
    EvolvesOn(s, a, b);
    EvolvesOn(s, b, ModeSet(s, asset, column, mode));
  }

  ghost predicate EffectAt(states: seq<State>, ops: seq<Op>, i: nat)
    requires i < |ops| && |states| == |ops| + 1
  {
    Effect(states[i], ops[i], states[i + 1])
  }

  ghost predicate IsHistory(states: seq<State>, ops: seq<Op>) {
    |states| == |ops| + 1 && states[0] == State([], []) && forall i | 0 <= i < |ops| :: EffectAt(states, ops, i)
  }

  /** Over any serial sequence of operations there is at most one active row per asset, column and source, retired rows
      stay as they were retired, and nothing is ever taken out of the table or the audit log. */
  lemma {:induction false} HistoryKeeps(states: seq<State>, ops: seq<Op>, i: nat, j: nat)
    requires IsHistory(states, ops) && i <= j < |states|
    ensures OneActive(states[j].rows) && Evolves(states[i], states[j])
    ensures forall n | 0 <= n < |states[i].rows| ::
      var r, q := states[i].rows[n], states[j].rows[n];
      && q == r.(codeLatest := q.codeLatest, mode := q.mode, lastSeen := q.lastSeen, retired := q.retired)
      && (r.retired ==> q == r)
    decreases j
  {
    if j > 0 {
      HistoryKeeps(states, ops, if i < j then i else j - 1, j - 1);
      assert EffectAt(states, ops, j - 1);
      EffectKeeps(states[j - 1], ops[j - 1], states[j]);
      if i < j {
        EvolvesOn(states[i], states[j - 1], states[j]);
      }
    }
  }

  lemma DisagreeingReloadWrites(s: State, masks: Masks, tagged: Tagged, now: int, later: int)
    requires OneActive(s.rows) && !TagsAgree(s.rows, masks, tagged)
    ensures var t := LoadAll(s, Plan(s.rows, masks, tagged), now);
      |LoadAll(t, Plan(t.rows, masks, tagged), later).rows| > |t.rows|
  {
    var t := LoadAll(s, Plan(s.rows, masks, tagged), now);
    ReloadIsQuietExactly(s, masks, tagged, now, later);
    EffectKeeps(s, Reloads(masks, tagged, now), t);
    EffectKeeps(t, Reloads(masks, tagged, later), LoadAll(t, Plan(t.rows, masks, tagged), later));
  }

  lemma PatchedTagsDisagree(s: State, r: Row, masks: Masks, tagged: Tagged, t: string, u: string)
    requires OneActive(s.rows) && !r.retired
    requires t in masks && u in masks && masks[t] != masks[u]
    requires r.key.asset in AssetsOf(tagged, t) && r.key.asset in AssetsOf(tagged, u)
    ensures !TagsAgree(ReplaceKey(s, r).rows, masks, tagged)
  {
    ReplaceKeyEffect(s, r);
    ColumnActive(ReplaceKey(s, r).rows, r.key.asset, r.key.column);
    assert Find(ReplaceKey(s, r).rows, Key(r.key.asset, r.key.column, r.key.source)).Some?;
    assert r.key.column in ActiveColumns(ReplaceKey(s, r).rows, r.key.asset);
  }

  /** A reachable table on which a reload is not quiet: a patched column of an asset that carries two tags with
      different masks. Loading the same configuration a second time writes again. */
  lemma TwoMasksReloadWrites(r: Row, masks: Masks, tagged: Tagged, t: string, u: string, first: int, second: int)
    returns (states: seq<State>)
    requires r.key.source == Runtime && !r.retired
    requires t in masks && u in masks && masks[t] != masks[u]
    requires r.key.asset in AssetsOf(tagged, t) && r.key.asset in AssetsOf(tagged, u)
    ensures IsHistory(states, [Patches(r), Reloads(masks, tagged, first), Reloads(masks, tagged, second)])
    ensures |states[3].rows| > |states[2].rows|
  {
    var s := State([], []);
    var a := ReplaceKey(s, r);
    var b := LoadAll(a, Plan(a.rows, masks, tagged), first);
    var c := LoadAll(b, Plan(b.rows, masks, tagged), second);
    states := [s, a, b, c];
    PatchedTagsDisagree(s, r, masks, tagged, t, u);
    ReplaceKeyEffect(s, r);
    DisagreeingReloadWrites(a, masks, tagged, first, second);
    ThreeEffects(s, a, b, c, Patches(r), Reloads(masks, tagged, first), Reloads(masks, tagged, second));
  }

  lemma ThreeEffects(s: State, a: State, b: State, c: State, x: Op, y: Op, z: Op)
    requires s == State([], []) && Effect(s, x, a) && Effect(a, y, b) && Effect(b, z, c)
    ensures IsHistory([s, a, b, c], [x, y, z])
  {}
}

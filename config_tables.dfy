/** The configuration tables of `axconfig-gen`
    (vendor/axconfig-gen/src/config.rs): a global table and named tables of
    items, creating a table, merging another configuration in, and
    updating values from another configuration.

    `BTreeMap` iteration visits keys in sorted order; the loops here take
    the keys in any order, so what they are proved to do holds for the
    sorted order too. */
module AxConfigs {

  import opened Common
  import opened ConfigTypes
  import opened ConfigValues

  /** `Config::GLOBAL_TABLE_NAME`. */
  const GLOBAL_TABLE_NAME: string := "$GLOBAL"

  /** `ConfigItem`. */
  datatype ConfigItem = ConfigItem(tableName: string, key: string, value: ConfigValue, comments: string)

  /** `item_name`: the key alone in the global table, else "table.key". */
  function ItemName(item: ConfigItem): string
  {
    if item.tableName == GLOBAL_TABLE_NAME then item.key else item.tableName + "." + item.key
  }

  /** The first '.' of "table.key" is the one after the table name. */
  lemma FindDot(t: string, k: string)
    requires '.' !in t
    ensures Find(t + "." + k, '.') == Some(|t|)
  {
    var s := t + "." + k;
    assert forall j :: 0 <= j < |t| ==> s[j] == t[j];
    assert s[|t|] == '.';
    assert s[..|t|] == t;
  }

  /** Outside the global table, and with no '.' in table names, the name
      of an item tells its table and key apart. */
  lemma ItemNameDistinct(a: ConfigItem, b: ConfigItem)
    requires a.tableName != GLOBAL_TABLE_NAME && b.tableName != GLOBAL_TABLE_NAME
    requires '.' !in a.tableName && '.' !in b.tableName
    ensures ItemName(a) == ItemName(b) <==> a.tableName == b.tableName && a.key == b.key
  {
    var x, y := ItemName(a), ItemName(b);
    FindDot(a.tableName, a.key);
    FindDot(b.tableName, b.key);
    if x == y {
      assert |a.tableName| == |b.tableName|;
      assert a.tableName == x[..|a.tableName|] == y[..|b.tableName|] == b.tableName;
      assert a.key == x[|a.tableName| + 1..] == y[|b.tableName| + 1..] == b.key;
    }
  }

  /** Where an item sits: its table's name and its key. The global table
      is the one named `$GLOBAL`. */
  type Key = (string, string)

  /** The items of a configuration, by table name and key: table `n` of
      the source is the set of entries whose key is `(n, _)`. */
  type Items = map<Key, ConfigItem>

  /** Every item sits under its own table name and key. */
  predicate Placed(t: Items)
  {
    forall p :: p in t ==> t[p].tableName == p.0 && t[p].key == p.1
  }

  predicate Disjoint(a: Items, b: Items)
  {
    forall k :: k in a ==> k !in b
  }

  /** `b` keeps everything of `a` and adds only entries of `c`. */
  predicate Between<K, V(==)>(a: map<K, V>, b: map<K, V>, c: map<K, V>)
  {
    (forall k :: k in a ==> k in b && b[k] == a[k]) &&
    (forall k :: k in b ==> k in a || (k in c && b[k] == c[k]))
  }

  // ---------------------------------------------------------------------
  // `merge`, item after item

  /** The entries of `src` whose keys are not in `todo`. */
  function Done(src: Items, todo: set<Key>): Items
  {
    map k | k in src && k !in todo :: src[k]
  }

  lemma DoneStep(dst: Items, src: Items, todo: set<Key>, k: Key)
    requires k in todo && k in src
    ensures dst + Done(src, todo - {k}) == (dst + Done(src, todo))[k := src[k]]
  {
    assert Done(src, todo - {k}) == Done(src, todo)[k := src[k]];
  }

  lemma DoneBetween(dst: Items, src: Items, todo: set<Key>)
    requires forall k :: k in src && k !in todo ==> k !in dst
    ensures Between(dst, dst + Done(src, todo), src)
  {
  }

  lemma DoneAll(src: Items)
    ensures Done(src, {}) == src
  {
  }

  /** The inner loop of `merge`: the items of `src` are inserted into
      `dst` until a key that is already there. */
  method MergeItems(dst: Items, src: Items) returns (res: Items, dup: Option<Key>)
    ensures dup.None? <==> Disjoint(dst, src)
    ensures dup.None? ==> res == dst + src
    ensures dup.Some? ==> dup.value in dst && dup.value in src && Between(dst, res, src)
  {
    res := dst;
    var todo := src.Keys;
    assert Done(src, todo) == map[];
    while todo != {}
      invariant todo <= src.Keys
      invariant forall k :: k in src && k !in todo ==> k !in dst
      invariant res == dst + Done(src, todo)
      decreases |todo|
    {
      var k :| k in todo;
      if k in res {
        DoneBetween(dst, src, todo);
        return res, Some(k);
      }
      DoneStep(dst, src, todo, k);
      res := res[k := src[k]];
      todo := todo - {k};
    }
    DoneAll(src);
    return res, None;
  }

  /** Items between two sets of placed items are placed. */
  lemma BetweenPlaced(a: Items, t: Items, b: Items)
    requires Placed(a) && Placed(b) && Between(a, t, b)
    ensures Placed(t)
  {
  }

  // ---------------------------------------------------------------------
  // `update`, one table at a time

  /** How one item's value takes a new value: `ConfigValue::update`. */
  type Upd = (ConfigValue, ConfigValue) -> Result<ConfigValue, ConfigErr>

  /** Every item both tables have can take the other's value. */
  predicate UpdatesOk(upd: Upd, t: Items, o: Items)
  {
    forall k :: k in t && k in o ==> upd(t[k].value, o[k].value).Ok?
  }

  /** `t` after its items whose keys are in `done` took the values of `o`. */
  function Applied(upd: Upd, t: Items, o: Items, done: set<Key>): Items
    requires DoneOk(upd, t, o, done)
  {
    map k | k in t :: if k in o && k in done then t[k].(value := upd(t[k].value, o[k].value).value) else t[k]
  }

  /** Every key in `done` that both tables have could be updated. */
  predicate DoneOk(upd: Upd, t: Items, o: Items, done: set<Key>)
  {
    forall j :: j in t && j in o && j in done ==> upd(t[j].value, o[j].value).Ok?
  }

  /** `t` after all its items that `o` has took their new values. */
  function Updated(upd: Upd, t: Items, o: Items): Items
    requires UpdatesOk(upd, t, o)
  {
    Applied(upd, t, o, o.Keys)
  }

  /** Each item is either as it was or has taken its value from `o`. */
  predicate Stepped(upd: Upd, t: Items, res: Items, o: Items)
  {
    res.Keys == t.Keys &&
    forall k :: k in t ==>
      res[k] == t[k] ||
      (k in o && upd(t[k].value, o[k].value).Ok? &&
       res[k] == t[k].(value := upd(t[k].value, o[k].value).value))
  }

  function ToSet<T>(s: seq<T>): set<T>
  {
    set x | x in s
  }

  predicate Distinct<T(==)>(s: seq<T>)
  {
    forall i, j :: 0 <= i < j < |s| ==> s[i] != s[j]
  }

  /** The keys of a table, each once, in the order they are taken out. */
  method KeysOf<K, V>(m: map<K, V>) returns (ks: seq<K>)
    ensures Distinct(ks) && forall k :: k in ks <==> k in m
  {
    ks := [];
    var todo := m.Keys;
    while todo != {}
      invariant todo <= m.Keys && Distinct(ks)
      invariant forall k :: k in ks <==> k in m && k !in todo
      decreases |todo|
    {
      var k :| k in todo;
      ks := ks + [k];
      todo := todo - {k};
    }
  }

  /** Item `k` of both tables refuses the value `o` gives it. */
  predicate Refuses(upd: Upd, t: Items, o: Items, k: Key)
  {
    k in t && k in o && upd(t[k].value, o[k].value).Err?
  }

  /** The table after the loop of `update` visited the keys `ks` of `o` in
      turn, each item taking its new value when it accepts it. */
  function ApplyKeys(upd: Upd, t: Items, o: Items, ks: seq<Key>): (r: Items)
    ensures r.Keys == t.Keys
    ensures forall k :: k in t && k !in ks ==> r[k] == t[k]
  {
    if ks == [] then t
    else
      var r := ApplyKeys(upd, t, o, ks[..|ks| - 1]);
      var k := ks[|ks| - 1];
      if k in r && k in o && upd(r[k].value, o[k].value).Ok? then
        r[k := r[k].(value := upd(r[k].value, o[k].value).value)]
      else r
  }

  /** The keys the loop of `update` recorded as touched after visiting `ks`. */
  function TouchedOf(t: Items, ks: seq<Key>): set<Key>
  {
    if ks == [] then {} else TouchedOf(t, ks[..|ks| - 1]) + (if ks[|ks| - 1] in t then {ks[|ks| - 1]} else {})
  }

  /** The items of `o` the loop of `update` pushed to `extra` after visiting
      `ks`: those `t` lacks, in visiting order. */
  function ExtraOf(t: Items, o: Items, ks: seq<Key>): seq<ConfigItem>
  {
    if ks == [] then []
    else
      var k := ks[|ks| - 1];
      ExtraOf(t, o, ks[..|ks| - 1]) + (if k in o && k !in t then [o[k]] else [])
  }

  lemma AppliedStep(upd: Upd, t: Items, o: Items, done: set<Key>, k: Key)
    requires DoneOk(upd, t, o, done)
    requires k in t && k in o && k !in done && upd(t[k].value, o[k].value).Ok?
    ensures DoneOk(upd, t, o, done + {k})
    ensures Applied(upd, t, o, done + {k}) ==
      Applied(upd, t, o, done)[k := t[k].(value := upd(t[k].value, o[k].value).value)]
  {
  }

  lemma AppliedSkip(upd: Upd, t: Items, o: Items, done: set<Key>, k: Key)
    requires DoneOk(upd, t, o, done) && !(k in t && k in o)
    ensures DoneOk(upd, t, o, done + {k})
    ensures Applied(upd, t, o, done + {k}) == Applied(upd, t, o, done)
  {
  }

  lemma AppliedStepped(upd: Upd, t: Items, o: Items, done: set<Key>)
    requires DoneOk(upd, t, o, done)
    ensures Stepped(upd, t, Applied(upd, t, o, done), o)
  {
  }

  /** With no refusal, visiting distinct keys applies exactly those keys. */
  lemma {:induction false} ApplyKeysApplied(upd: Upd, t: Items, o: Items, ks: seq<Key>)
    requires Distinct(ks) && forall i :: 0 <= i < |ks| ==> !Refuses(upd, t, o, ks[i])
    ensures DoneOk(upd, t, o, ToSet(ks)) && ApplyKeys(upd, t, o, ks) == Applied(upd, t, o, ToSet(ks))
  {
    if ks == [] {
      assert Applied(upd, t, o, {}) == t;
    } else {
      var ks', k := ks[..|ks| - 1], ks[|ks| - 1];
      ApplyKeysApplied(upd, t, o, ks');
      assert ToSet(ks) == ToSet(ks') + {k} by { assert ks == ks' + [k]; }
      assert k !in ks';
      if k in t && k in o {
        assert !Refuses(upd, t, o, ks[|ks| - 1]);
        AppliedStep(upd, t, o, ToSet(ks'), k);
      } else {
        AppliedSkip(upd, t, o, ToSet(ks'), k);
      }
    }
  }

  lemma {:induction false} TouchedOfKeys(t: Items, ks: seq<Key>)
    ensures TouchedOf(t, ks) == t.Keys * ToSet(ks)
  {
    if ks != [] {
      var ks' := ks[..|ks| - 1];
      TouchedOfKeys(t, ks');
      assert ToSet(ks) == ToSet(ks') + {ks[|ks| - 1]} by { assert ks == ks' + [ks[|ks| - 1]]; }
    }
  }

  lemma {:induction false} ExtraOfKeys(t: Items, o: Items, ks: seq<Key>)
    requires forall k :: k in ks ==> k in o
    ensures ToSet(ExtraOf(t, o, ks)) == set k | k in ks && k !in t :: o[k]
  {
    if ks != [] {
      var ks', k := ks[..|ks| - 1], ks[|ks| - 1];
      assert ks == ks' + [k];
      ExtraOfKeys(t, o, ks');
      var e' := ExtraOf(t, o, ks');
      if k in t {
        assert ExtraOf(t, o, ks) == e';
      } else {
        assert ToSet(e' + [o[k]]) == ToSet(e') + {o[k]};
      }
    }
  }

  /** The whole loop ran with no refusal. */
  lemma UpdateItemsDone(upd: Upd, t: Items, o: Items, ks: seq<Key>)
    requires Distinct(ks) && (forall k :: k in ks <==> k in o)
    requires forall i :: 0 <= i < |ks| ==> !Refuses(upd, t, o, ks[i])
    ensures UpdatesOk(upd, t, o) && ApplyKeys(upd, t, o, ks) == Updated(upd, t, o)
    ensures TouchedOf(t, ks) == t.Keys * o.Keys
    ensures ToSet(ExtraOf(t, o, ks)) == set k | k in o && k !in t :: o[k]
  {
    ApplyKeysApplied(upd, t, o, ks);
    assert ToSet(ks) == o.Keys;
    TouchedOfKeys(t, ks);
    ExtraOfKeys(t, o, ks);
  }

  /** The loop stopped at a refusal after visiting `ks`. */
  lemma UpdateItemsFailed(upd: Upd, t: Items, o: Items, ks: seq<Key>, k: Key, e: ConfigErr)
    requires Distinct(ks) && forall i :: 0 <= i < |ks| ==> !Refuses(upd, t, o, ks[i])
    requires k in t && k in o && upd(t[k].value, o[k].value) == Err(e)
    ensures !UpdatesOk(upd, t, o) && Stepped(upd, t, ApplyKeys(upd, t, o, ks), o)
    ensures exists k :: k in t && k in o && upd(t[k].value, o[k].value) == Err(e)
  {
    ApplyKeysApplied(upd, t, o, ks);
    AppliedStepped(upd, t, o, ToSet(ks));
  }

  /** The state of the loop of `update` over one table once it visited
      `ks` with no refusal. */
  predicate Visited(upd: Upd, t: Items, o: Items, ks: seq<Key>, res: Items, touched: set<Key>,
                    extra: seq<ConfigItem>)
  {
    Distinct(ks) && (forall i :: 0 <= i < |ks| ==> !Refuses(upd, t, o, ks[i])) &&
    res == ApplyKeys(upd, t, o, ks) && touched == TouchedOf(t, ks) && extra == ExtraOf(t, o, ks)
  }

  /** One iteration of the loop of `update` over one table, on key `k`. */
  method VisitKey(upd: Upd, t: Items, o: Items, ghost ks: seq<Key>, res: Items, touched: set<Key>,
                  extra: seq<ConfigItem>, k: Key)
    returns (res': Items, touched': set<Key>, extra': seq<ConfigItem>, err: Option<ConfigErr>)
    requires k in o && k !in ks && Visited(upd, t, o, ks, res, touched, extra)
    ensures err.None? ==> Visited(upd, t, o, ks + [k], res', touched', extra')
    ensures err.Some? ==> k in t && upd(t[k].value, o[k].value) == Err(err.value) && res' == res
  {
    var ks' := ks + [k];
    assert ks'[..|ks'| - 1] == ks;
    if k in res {
      var u := upd(res[k].value, o[k].value);
      if u.Err? {
        return res, touched, extra, Some(u.error);
      }
      res', touched', extra', err := res[k := res[k].(value := u.value)], touched + {k}, extra, None;
    } else {
      res', touched', extra', err := res, touched, extra + [o[k]], None;
    }
    assert forall i :: 0 <= i < |ks'| ==> ks'[i] == if i < |ks| then ks[i] else k;
  }

  /** The loop body of `update` over one table of the other configuration:
      items this table has are updated in turn (and recorded as touched),
      the others are extra; the first refusal stops it. */
  method UpdateItems(upd: Upd, t: Items, o: Items) returns (res: Items, touched: set<Key>, extra: seq<ConfigItem>, err: Option<ConfigErr>)
    ensures err.None? <==> UpdatesOk(upd, t, o)
    ensures err.None? ==> res == Updated(upd, t, o) && touched == t.Keys * o.Keys
    ensures err.None? ==> ToSet(extra) == set k | k in o && k !in t :: o[k]
    ensures err.Some? ==> Stepped(upd, t, res, o)
    ensures err.Some? ==> exists k :: k in t && k in o && upd(t[k].value, o[k].value) == Err(err.value)
  {
    var keys := KeysOf(o);
    res, touched, extra, err := t, {}, [], None;
    for i := 0 to |keys|
      invariant err.None? && Visited(upd, t, o, keys[..i], res, touched, extra)
    {
      assert keys[..i + 1] == keys[..i] + [keys[i]];
      assert keys[i] !in keys[..i];
      ghost var ks := keys[..i];
      res, touched, extra, err := VisitKey(upd, t, o, ks, res, touched, extra, keys[i]);
      if err.Some? {
        assert keys[i] in o;
        UpdateItemsFailed(upd, t, o, ks, keys[i], err.value);
        return;
      }
    }
    assert keys[..|keys|] == keys;
    UpdateItemsDone(upd, t, o, keys);
  }

  // ---------------------------------------------------------------------
  // `merge`, table after table


  // ---------------------------------------------------------------------
  // the items `update` left untouched

  /** The items of `t` not in `touched`, in the order of `ks`. */
  function UntouchedOf(t: Items, touched: set<Key>, ks: seq<Key>): seq<ConfigItem>
  {
    if ks == [] then []
    else
      var k := ks[|ks| - 1];
      UntouchedOf(t, touched, ks[..|ks| - 1]) + (if k in t && k !in touched then [t[k]] else [])
  }

  lemma {:induction false} UntouchedOfKeys(t: Items, touched: set<Key>, ks: seq<Key>)
    ensures ToSet(UntouchedOf(t, touched, ks)) == set k | k in ks && k in t && k !in touched :: t[k]
  {
    if ks != [] {
      var ks', k := ks[..|ks| - 1], ks[|ks| - 1];
      assert ks == ks' + [k];
      UntouchedOfKeys(t, touched, ks');
      var u' := UntouchedOf(t, touched, ks');
      if k in t && k !in touched {
        assert ToSet(u' + [t[k]]) == ToSet(u') + {t[k]};
      } else {
        assert UntouchedOf(t, touched, ks) == u';
      }
    }
  }

  /** The filter at the end of `update`: the items of `t` whose place is
      not in `touched`. */
  method Untouched(t: Items, touched: set<Key>) returns (u: seq<ConfigItem>)
    ensures ToSet(u) == set k | k in t && k !in touched :: t[k]
  {
    var keys := KeysOf(t);
    u := [];
    for i := 0 to |keys|
      invariant u == UntouchedOf(t, touched, keys[..i])
    {
      assert keys[..i + 1] == keys[..i] + [keys[i]];
      if keys[i] !in touched {
        u := u + [t[keys[i]]];
      }
    }
    assert keys[..|keys|] == keys;
    UntouchedOfKeys(t, touched, keys);
  }

  /** As written, `update` records touched items by `item_name`, so the
      global item "a.b" counts as touched when item "b" of table "a" is. */
  function UntouchedAsWritten(t: Items, touched: set<Key>): set<ConfigItem>
  {
    var names := set k | k in touched && k in t :: ItemName(t[k]);
    set k | k in t && ItemName(t[k]) !in names :: t[k]
  }

  /** The global item "a.b" that `other` does not set is missing from the
      untouched items as written, though no update reached it. */
  lemma UntouchedAsWrittenMissesGlobal(v: ConfigValue)
    ensures var x, y := ConfigItem(GLOBAL_TABLE_NAME, "a.b", v, ""), ConfigItem("a", "b", v, "");
            var t := map[(GLOBAL_TABLE_NAME, "a.b") := x, ("a", "b") := y];
            x !in UntouchedAsWritten(t, {("a", "b")}) &&
            x in set k | k in t && k !in {("a", "b")} :: t[k]
  {
    var x, y := ConfigItem(GLOBAL_TABLE_NAME, "a.b", v, ""), ConfigItem("a", "b", v, "");
    var t := map[(GLOBAL_TABLE_NAME, "a.b") := x, ("a", "b") := y];
    assert ItemName(y) == "a.b";
    assert ("a", "b") in {("a", "b")} && ("a", "b") in t && t[("a", "b")] == y;
    assert "a.b" in set k | k in {("a", "b")} && k in t :: ItemName(t[k]);
    assert ItemName(x) == "a.b";
    var g := (GLOBAL_TABLE_NAME, "a.b");
    assert g in t && g !in {("a", "b")} && t[g] == x;
    assert x in set k | k in t && k !in {("a", "b")} :: t[k];
    var names := set k | k in {("a", "b")} && k in t :: ItemName(t[k]);
    assert x !in set k | k in t && ItemName(t[k]) !in names :: t[k];
  }

  /** `dst` after adding, key by key of `ks`, the entries of `src` it
      does not have yet. */
  function AddedOf<K, V>(src: map<K, V>, dst: map<K, V>, ks: seq<K>): map<K, V>
    requires ToSet(ks) <= src.Keys
  {
    if ks == [] then dst
    else
      var d, k := AddedOf(src, dst, ks[..|ks| - 1]), ks[|ks| - 1];
      assert ks == ks[..|ks| - 1] + [k];
      if k in d then d else d[k := src[k]]
  }

  lemma {:induction false} AddedOfKeys<K, V>(src: map<K, V>, dst: map<K, V>, ks: seq<K>)
    requires ToSet(ks) <= src.Keys
    ensures AddedOf(src, dst, ks) == (map k | k in ToSet(ks) :: src[k]) + dst
  {
    if ks != [] {
      var ks', k := ks[..|ks| - 1], ks[|ks| - 1];
      assert ks == ks' + [k];
      assert ToSet(ks) == ToSet(ks') + {k};
      AddedOfKeys(src, dst, ks');
      var m', m := map j | j in ToSet(ks') :: src[j], map j | j in ToSet(ks) :: src[j];
      assert m == m'[k := src[k]];
    }
  }

  // ---------------------------------------------------------------------
  // the configuration

  /** The items of `src` that sit in one of the tables `tables`. */
  function Part(src: Items, tables: set<string>): (r: Items)
    ensures forall p :: p in r <==> p in src && p.0 in tables
    ensures forall p :: p in r ==> r[p] == src[p]
  {
    map p | p in src && p.0 in tables :: src[p]
  }

  lemma PartIn(src: Items, tables: set<string>)
    ensures forall p :: p in Part(src, tables) ==> p in src
  {
  }

  /** Taking one more table adds its items. */
  lemma PartGrow(dst: Items, src: Items, done: set<string>, name: string)
    ensures Part(src, done + {name}) == Part(src, done) + Part(src, {name})
    ensures Disjoint(dst, Part(src, done)) && Disjoint(dst + Part(src, done), Part(src, {name})) ==>
      Disjoint(dst, Part(src, done + {name}))
    ensures dst + Part(src, done) + Part(src, {name}) == dst + Part(src, done + {name})
  {
    assert Part(src, done + {name}) == Part(src, done) + Part(src, {name});
  }

  /** Every item of a configuration sits in the global table or in one of
      its named tables. */
  lemma PartAll(src: Items, named: set<string>, names: seq<string>)
    requires forall p :: p in src ==> p.0 == GLOBAL_TABLE_NAME || p.0 in named
    requires forall n :: n in names <==> n in named
    ensures Part(src, {GLOBAL_TABLE_NAME} + ToSet(names)) == src
  {
    var r := Part(src, {GLOBAL_TABLE_NAME} + ToSet(names));
    forall p | p in src
      ensures p in r
    {
      if p.0 != GLOBAL_TABLE_NAME {
        assert p.0 in names;
      }
    }
    assert r == src;
  }

  /** A duplicate found in table `name` after the tables `done` were
      merged lies in the old items, and what was merged stays between the
      old items and those of `src`. */
  lemma MergeStopped(old0: Items, before: Items, after: Items, src: Items, done: set<string>, name: string, dup: Key)
    requires before == old0 + Part(src, done) && Disjoint(old0, Part(src, done)) && name !in done
    requires dup in before && dup in src && dup.0 == name
    requires Between(before, after, Part(src, {name}))
    ensures dup in old0 && dup in src
    ensures Between(old0, after, src)
  {
    forall k | k in old0
      ensures k in after && after[k] == old0[k]
    {
      assert k !in Part(src, done);
    }
    forall k | k in after && k !in old0
      ensures k in src && after[k] == src[k]
    {
      if k in before {
        assert k in Part(src, done);
      }
    }
  }

  /** What lies between `a` and the items of some tables of `src` lies
      between `a` and `src`. */
  lemma BetweenPart(a: Items, b: Items, src: Items, tables: set<string>)
    requires Between(a, b, Part(src, tables))
    ensures Between(a, b, src)
  {
  }

  /** The global table and then the named tables `names` of `src`:
      merged without a duplicate, all of `src` is added; stopped by a
      duplicate, what was added stays between the old items and `src`. */
  lemma MergeWalk(old0: Items, global: Items, after: Items, src: Items, named: set<string>,
                  names: seq<string>, dup: Option<Key>)
    requires forall p :: p in src ==> p.0 == GLOBAL_TABLE_NAME || p.0 in named
    requires forall n :: n in names <==> n in named
    requires global == old0 + Part(src, {GLOBAL_TABLE_NAME}) && Disjoint(old0, Part(src, {GLOBAL_TABLE_NAME}))
    requires dup.None? ==> after == global + Part(src, ToSet(names)) && Disjoint(global, Part(src, ToSet(names)))
    requires dup.Some? ==> Between(global, after, src)
    ensures dup.None? ==> after == old0 + src && Disjoint(old0, src)
    ensures dup.Some? ==> Between(old0, after, src)
  {
    PartAll(src, named, names);
    if dup.None? {
      PartUnion(src, {GLOBAL_TABLE_NAME}, ToSet(names));
    }
  }

  lemma PartUnion(src: Items, a: set<string>, b: set<string>)
    ensures Part(src, a + b) == Part(src, a) + Part(src, b)
  {
    assert Part(src, a + b) == Part(src, a) + Part(src, b);
  }

  /** One more key on the list of tables to add. */
  lemma AddedOfSnoc<K, V>(src: map<K, V>, dst: map<K, V>, ks: seq<K>, k: K)
    requires ToSet(ks) <= src.Keys && k in src
    ensures ToSet(ks + [k]) <= src.Keys
    ensures AddedOf(src, dst, ks + [k]) == AddedOf(src, AddedOf(src, dst, ks), [k])
  {
    assert (ks + [k])[..|ks|] == ks;
    assert [k][..0] == [];
  }

  /** Adding tables from `src` keeps those of `dst` and takes the others
      from `src`. */
  lemma AddedOfBetween<K, V>(src: map<K, V>, dst: map<K, V>, ks: seq<K>)
    requires ToSet(ks) <= src.Keys
    ensures Between(dst, AddedOf(src, dst, ks), src)
  {
    AddedOfKeys(src, dst, ks);
  }

  /** `Duplicate key` message of `merge`. */
  function DuplicateKey(k: string): ConfigErr
  {
    Other("Duplicate key `" + k + "`")
  }

  /** `Config`: the items of the global table and of the named tables, and
      the comments of the named tables. */
  class Config {
    var items: Items
    var tableComments: map<string, string>

    /** No named table is called `$GLOBAL`, and every item sits under its
        own place, in the global table or in a named one. */
    predicate Valid()
      reads this
    {
      GLOBAL_TABLE_NAME !in tableComments && Placed(items) &&
      forall p :: p in items ==> p.0 == GLOBAL_TABLE_NAME || p.0 in tableComments
    }

    /** `Config::new`. */
    constructor ()
      ensures Valid() && items == map[] && tableComments == map[]
    {
      items, tableComments := map[], map[];
    }

    /** `is_empty`: no item and no named table. */
    function IsEmpty(): (r: bool)
      reads this
      ensures r <==> items == map[] && tableComments == map[]
    {
      |items| == 0 && |tableComments| == 0
    }

    /** `config_at`: the item under key `key` of table `table`, if the table
        and the key exist. */
    function ConfigAt(table: string, key: string): (r: Option<ConfigItem>)
      reads this
      ensures r.Some? <==> (table, key) in items
      ensures Valid() && r.Some? ==> r.value.tableName == table && r.value.key == key
      ensures r.Some? ==> table == GLOBAL_TABLE_NAME || !Valid() || table in tableComments
    {
      if (table, key) in items then Some(items[(table, key)]) else None
    }

    /** `new_table`: `$GLOBAL` and names already in use are refused. */
    method NewTable(name: string, comments: string) returns (r: Result<(), ConfigErr>)
      requires Valid()
      modifies this
      ensures Valid() && items == old(items)
      ensures name == GLOBAL_TABLE_NAME ==> r == Err(Other("Table name `$GLOBAL` is reserved"))
      ensures name != GLOBAL_TABLE_NAME && name in old(tableComments) ==>
        r == Err(Other("Duplicate table name `" + name + "`"))
      ensures r.Err? ==> tableComments == old(tableComments)
      ensures r.Ok? <==> name != GLOBAL_TABLE_NAME && name !in old(tableComments)
      ensures r.Ok? ==> tableComments == old(tableComments)[name := comments]
    {
      if name == GLOBAL_TABLE_NAME {
        return Err(Other("Table name `$GLOBAL` is reserved"));
      }
      if name in tableComments {
        return Err(Other("Duplicate table name `" + name + "`"));
      }
      tableComments := tableComments[name := comments];
      return Ok(());
    }

    /** One table of the walk in `merge`: the table `name` is created with
        the comments `other` gives it unless it exists here, then the items
        of that table of `other` are added until a key that is already
        here. */
    method MergeTable(other: Config, name: string) returns (dup: Option<Key>)
      requires Valid() && other.Valid() && other != this
      requires name == GLOBAL_TABLE_NAME || name in other.tableComments
      modifies this
      ensures Valid()
      ensures tableComments == AddedOf(other.tableComments, old(tableComments), if name == GLOBAL_TABLE_NAME then [] else [name])
      ensures dup.None? <==> Disjoint(old(items), Part(other.items, {name}))
      ensures dup.None? ==> items == old(items) + Part(other.items, {name})
      ensures dup.Some? ==> dup.value in old(items) && dup.value in other.items && dup.value.0 == name
      ensures dup.Some? ==> Between(old(items), items, Part(other.items, {name}))
    {
      if name != GLOBAL_TABLE_NAME {
        assert [name][..0] == [];
        if name !in tableComments {
          var created := NewTable(name, other.tableComments[name]);
        }
      }
      var part := Part(other.items, {name});
      var res;
      res, dup := MergeItems(items, part);
      if dup.None? {
        assert Between(items, res, part);
      }
      BetweenPlaced(items, res, part);
      items := res;
    }

    /** The walk of `merge` over the named tables `names` of `other`, each
        through `MergeTable`, until a key that is already here. */
    method MergeTables(other: Config, names: seq<string>) returns (dup: Option<Key>)
      requires Valid() && other.Valid() && other != this
      requires Distinct(names) && ToSet(names) <= other.tableComments.Keys
      modifies this
      ensures Valid()
      ensures dup.None? ==> items == old(items) + Part(other.items, ToSet(names))
      ensures dup.None? ==> Disjoint(old(items), Part(other.items, ToSet(names)))
      ensures dup.None? ==> tableComments == AddedOf(other.tableComments, old(tableComments), names)
      ensures dup.Some? ==> dup.value in old(items) && dup.value in other.items && dup.value.0 in names
      ensures dup.Some? ==> Between(old(items), items, other.items)
      ensures dup.Some? ==> Between(old(tableComments), tableComments, other.tableComments)
    {
      dup := None;
      assert ToSet(names[..0]) == {};
      for i := 0 to |names|
        invariant Valid() && dup.None?
        invariant tableComments == AddedOf(other.tableComments, old(tableComments), names[..i])
        invariant items == old(items) + Part(other.items, ToSet(names[..i]))
        invariant Disjoint(old(items), Part(other.items, ToSet(names[..i])))
      {
        var done := ToSet(names[..i]);
        assert names[..i + 1] == names[..i] + [names[i]];
        assert names[i] !in done;
        assert names[i] in other.tableComments;
        ghost var before := items;
        dup := MergeTable(other, names[i]);
        AddedOfSnoc(other.tableComments, old(tableComments), names[..i], names[i]);
        if dup.Some? {
          MergeStopped(old(items), before, items, other.items, done, names[i], dup.value);
          AddedOfBetween(other.tableComments, old(tableComments), names[..i + 1]);
          return;
        }
        PartGrow(old(items), other.items, done, names[i]);
        assert ToSet(names[..i + 1]) == done + {names[i]};
      }
      assert names[..|names|] == names;
    }

    /** `merge`: the global table of `other` and then each of its named
        tables in turn go through `MergeTable`; the first key both
        configurations have stops the walk with `Duplicate key`, keeping
        the tables created and the items added so far. */
    method Merge(other: Config) returns (r: Result<(), ConfigErr>)
      requires Valid() && other.Valid() && other != this
      modifies this
      ensures Valid()
      ensures r.Ok? <==> Disjoint(old(items), other.items)
      ensures r.Ok? ==> items == old(items) + other.items
      ensures r.Ok? ==> tableComments == other.tableComments + old(tableComments)
      ensures r.Err? ==> exists p :: p in old(items) && p in other.items && r.error == DuplicateKey(p.1)
      ensures r.Err? ==> Between(old(items), items, other.items)
      ensures r.Err? ==> Between(old(tableComments), tableComments, other.tableComments)
      ensures (exists p :: p in old(items) && p in other.items && p.0 == GLOBAL_TABLE_NAME) ==>
        r.Err? && tableComments == old(tableComments)
    {
      var dup := MergeTable(other, GLOBAL_TABLE_NAME);
      if dup.Some? {
        assert dup.value in old(items) && dup.value in other.items;
        BetweenPart(old(items), items, other.items, {GLOBAL_TABLE_NAME});
        return Err(DuplicateKey(dup.value.1));
      }
      ghost var global := items;
      var names := KeysOf(other.tableComments);
      dup := MergeTables(other, names);
      MergeWalk(old(items), global, items, other.items, other.tableComments.Keys, names, dup);
      if dup.Some? {
        assert dup.value !in Part(other.items, {GLOBAL_TABLE_NAME});
        assert dup.value in old(items) && dup.value in other.items;
        return Err(DuplicateKey(dup.value.1));
      }
      AddedOfKeys(other.tableComments, old(tableComments), names);
      assert (map k | k in ToSet(names) :: other.tableComments[k]) == other.tableComments;
      return Ok(());
    }

    /** `update`: every item of `other` whose place exists here gives this
        item its value, the first refusal stopping it with the updates so
        far kept; the result is the items here that `other` does not have
        and the items of `other` that have no place here. */
    method Update(other: Config) returns (r: Result<(seq<ConfigItem>, seq<ConfigItem>), ConfigErr>)
      requires Valid() && other.Valid() && other != this
      modifies this
      ensures Valid() && tableComments == old(tableComments)
      ensures r.Ok? <==> UpdatesOk(ConfigValues.Update, old(items), other.items)
      ensures r.Ok? ==> items == Updated(ConfigValues.Update, old(items), other.items)
      ensures r.Ok? ==> ToSet(r.value.0) == set k | k in items && k !in other.items :: items[k]
      ensures r.Ok? ==> ToSet(r.value.1) == set k | k in other.items && k !in old(items) :: other.items[k]
      ensures r.Err? ==> Stepped(ConfigValues.Update, old(items), items, other.items)
      ensures r.Err? ==> exists k :: (k in old(items) && k in other.items &&
                                      ConfigValues.Update(old(items)[k].value, other.items[k].value) == Err(r.error))
    {
      var res, touched, extra, err := UpdateItems(ConfigValues.Update, items, other.items);
      SteppedPlaced(ConfigValues.Update, items, res, other.items);
      items := res;
      if err.Some? {
        return Err(err.value);
      }
      var untouched := Untouched(items, touched);
      return Ok((untouched, extra));
    }
  }

  /** Updating values keeps every item in its place. */
  lemma SteppedPlaced(upd: Upd, t: Items, res: Items, o: Items)
    requires Placed(t)
    ensures UpdatesOk(upd, t, o) && res == Updated(upd, t, o) ==> Placed(res) && res.Keys == t.Keys
    ensures Stepped(upd, t, res, o) ==> Placed(res) && res.Keys == t.Keys
  {
  }
}

/** The run configuration both drivers read (a JSON object), and the
    ordered dictionary of `unidock` options that `DEFAULT_UNIDOCK_ARGS`
    and the configuration's `unidock_args` hold. */
module RunConfig {
  import opened Wrappers

  /** A Python dict from option name to option text, in insertion order. */
  type ArgList = seq<(string, string)>

  /** The keys of a dict, in iteration order. */
  function KeysOf(a: ArgList): (ks: seq<string>)
    ensures |ks| == |a| && forall i :: 0 <= i < |a| ==> ks[i] == a[i].0
  {
    if a == [] then [] else [a[0].0] + KeysOf(a[1..])
  }

  /** No key is listed twice: what a Python dict guarantees. */
  predicate IsDict(a: ArgList) {
    forall i, j :: 0 <= i < j < |a| ==> a[i].0 != a[j].0
  }

  /** `d.get(k)`. */
  function Get(a: ArgList, k: string): (r: Option<string>)
    ensures r.Some? <==> k in KeysOf(a)
    ensures r.Some? ==> exists i :: 0 <= i < |a| && a[i] == (k, r.value)
  {
    if a == [] then None
    else if a[0].0 == k then Some(a[0].1)
    else Get(a[1..], k)
  }

  /** `d[k] = v`: an existing key keeps its place and takes the new value,
      a new key goes to the end. */
  function Update(a: ArgList, k: string, v: string): ArgList {
    if a == [] then [(k, v)]
    else if a[0].0 == k then [(k, v)] + a[1..]
    else [a[0]] + Update(a[1..], k, v)
  }

  /** After `d[k] = v`, `k` maps to `v` and every other key is unchanged. */
  lemma {:induction false} UpdateGet(a: ArgList, k: string, v: string, q: string)
    ensures Get(Update(a, k, v), q) == if q == k then Some(v) else Get(a, q)
  {
    if a != [] && a[0].0 != k {
      UpdateGet(a[1..], k, v, q);
      assert Update(a, k, v)[1..] == Update(a[1..], k, v);
    }
  }

  /** The entries after the first of a dict form a dict without its key. */
  lemma DictTail(a: ArgList)
    requires IsDict(a) && a != []
    ensures IsDict(a[1..]) && a[0].0 !in KeysOf(a[1..])
  {
    forall j | 0 <= j < |a| - 1
      ensures KeysOf(a[1..])[j] != a[0].0
    {
      assert a[1..][j] == a[j + 1];
    }
  }

  /** An entry whose key a dict lacks may go in front of it. */
  lemma ConsIsDict(h: (string, string), t: ArgList)
    requires IsDict(t) && h.0 !in KeysOf(t)
    ensures IsDict([h] + t)
  {
    var r := [h] + t;
    forall i, j | 0 <= i < j < |r|
      ensures r[i].0 != r[j].0
    {
      assert r[j] == t[j - 1];
      if i == 0 {
        assert KeysOf(t)[j - 1] == t[j - 1].0;
      } else {
        assert r[i] == t[i - 1];
      }
    }
  }

  /** `d[k] = v` appends `k` to the key order exactly when it is new, and
      keeps the keys distinct. */
  lemma {:induction false} UpdateKeys(a: ArgList, k: string, v: string)
    requires IsDict(a)
    ensures KeysOf(Update(a, k, v)) == if k in KeysOf(a) then KeysOf(a) else KeysOf(a) + [k]
    ensures IsDict(Update(a, k, v))
  {
    if a != [] && a[0].0 != k {
      DictTail(a);
      UpdateKeys(a[1..], k, v);
      assert KeysOf(a) == [a[0].0] + KeysOf(a[1..]);
      var r := Update(a, k, v);
      assert r == [a[0]] + Update(a[1..], k, v);
      assert KeysOf(r) == [a[0].0] + KeysOf(Update(a[1..], k, v));
      ConsIsDict(a[0], Update(a[1..], k, v));
    } else if a != [] {
      DictTail(a);
      assert KeysOf(a) == [k] + KeysOf(a[1..]);
      assert KeysOf(Update(a, k, v)) == [k] + KeysOf(a[1..]);
      ConsIsDict((k, v), a[1..]);
    }
  }

  /** `d = copy.deepcopy(defaults); d.update(overrides)`. */
  function Merge(defaults: ArgList, overrides: ArgList): ArgList
    decreases |overrides|
  {
    if overrides == [] then defaults
    else Merge(Update(defaults, overrides[0].0, overrides[0].1), overrides[1..])
  }

  /** The keys of `o` that `ks` does not list, in the order of `o`. */
  function NewKeys(o: ArgList, ks: seq<string>): (r: seq<string>)
    ensures forall k :: k in r <==> k in KeysOf(o) && k !in ks
  {
    if o == [] then []
    else (if o[0].0 in ks then [] else [o[0].0]) + NewKeys(o[1..], ks)
  }

  /** A key that `o` does not list makes no difference to `NewKeys`. */
  lemma {:induction false} NewKeysSkips(o: ArgList, ks: seq<string>, k: string)
    requires k !in KeysOf(o)
    ensures NewKeys(o, ks + [k]) == NewKeys(o, ks)
  {
    if o != [] {
      assert KeysOf(o) == [o[0].0] + KeysOf(o[1..]);
      NewKeysSkips(o[1..], ks, k);
    }
  }

  /** The effective options: a key the overrides list takes their value,
      any other key keeps the default's. */
  lemma {:induction false} MergeGet(defaults: ArgList, overrides: ArgList, q: string)
    requires IsDict(overrides)
    ensures Get(Merge(defaults, overrides), q) ==
            if q in KeysOf(overrides) then Get(overrides, q) else Get(defaults, q)
    decreases |overrides|
  {
    if overrides != [] {
      var (k, v) := overrides[0];
      var rest := overrides[1..];
      assert KeysOf(overrides) == [k] + KeysOf(rest);
      MergeGet(Update(defaults, k, v), rest, q);
      UpdateGet(defaults, k, v, q);
    }
  }

  /** The effective options list every default key in its place, followed
      by the keys that only the overrides list, in their order; no key twice. */
  lemma {:induction false} MergeKeys(defaults: ArgList, overrides: ArgList)
    requires IsDict(defaults) && IsDict(overrides)
    ensures KeysOf(Merge(defaults, overrides)) ==
            KeysOf(defaults) + NewKeys(overrides, KeysOf(defaults))
    ensures IsDict(Merge(defaults, overrides))
    decreases |overrides|
  {
    if overrides != [] {
      var (k, v) := overrides[0];
      var rest := overrides[1..];
      assert KeysOf(overrides) == [k] + KeysOf(rest);
      var ks := KeysOf(defaults);
      UpdateKeys(defaults, k, v);
      var d' := Update(defaults, k, v);
      assert IsDict(rest);
      MergeKeys(d', rest);
      var m := Merge(defaults, overrides);
      assert m == Merge(d', rest);
      assert KeysOf(m) == KeysOf(d') + NewKeys(rest, KeysOf(d'));
      if k in ks {
        assert NewKeys(overrides, ks) == NewKeys(rest, ks);
        assert KeysOf(d') == ks;
      } else {
        assert NewKeys(overrides, ks) == [k] + NewKeys(rest, ks);
        assert k !in KeysOf(rest);
        NewKeysSkips(rest, ks, k);
        assert KeysOf(d') == ks + [k];
        assert ks + [k] + NewKeys(rest, ks) == ks + ([k] + NewKeys(rest, ks));
      }
    }
  }

  /** A value of the JSON configuration file, in the shapes the drivers read. */
  datatype Value =
    | Text(text: string)
    | Count(count: int)
    | Names(names: seq<string>)
    | Options(options: ArgList)

  /** The configuration: a JSON object. */
  type Config = map<string, Value>

  /** Every key a driver reads holds a value of the shape it expects. */
  predicate WellTyped(config: Config) {
    && ("rootdir" in config ==> config["rootdir"].Text?)
    && ("savedir" in config ==> config["savedir"].Text?)
    && ("round" in config ==> config["round"].Count?)
    && ("srarch_mode_list" in config ==> config["srarch_mode_list"].Names?)
    && ("search_mode_list" in config ==> config["search_mode_list"].Names?)
    && ("dataset_names" in config ==> config["dataset_names"].Names?)
    && ("unidock_args" in config ==> config["unidock_args"].Options? && IsDict(config["unidock_args"].options))
  }

  /** `config.get(key, default)` for a list of names. */
  function GetNames(config: Config, key: string, default: seq<string>): seq<string>
    requires key in config ==> config[key].Names?
  {
    if key in config then config[key].names else default
  }

  /** `config.get("unidock_args", dict())`. */
  function OverridesOf(config: Config): (o: ArgList)
    requires WellTyped(config)
    ensures IsDict(o)
  {
    if "unidock_args" in config then config["unidock_args"].options else []
  }

  /** `unidock_args = copy.deepcopy(defaults); unidock_args.update(config.get("unidock_args", dict()))`. */
  function EffectiveArgs(defaults: ArgList, config: Config): ArgList
    requires WellTyped(config)
  {
    Merge(defaults, OverridesOf(config))
  }

  /** The effective options are the defaults overridden by the configuration:
      every default key is kept in its place, a configured value replaces its
      default, keys only the configuration names follow in their order, and
      no key is listed twice. */
  lemma EffectiveArgsSpec(defaults: ArgList, config: Config)
    requires WellTyped(config) && IsDict(defaults)
    ensures IsDict(EffectiveArgs(defaults, config))
    ensures KeysOf(EffectiveArgs(defaults, config)) ==
            KeysOf(defaults) + NewKeys(OverridesOf(config), KeysOf(defaults))
    ensures forall q :: Get(EffectiveArgs(defaults, config), q) ==
                          (if q in KeysOf(OverridesOf(config)) then Get(OverridesOf(config), q) else Get(defaults, q))
  {
    MergeKeys(defaults, OverridesOf(config));
    forall q
      ensures Get(EffectiveArgs(defaults, config), q) ==
              if q in KeysOf(OverridesOf(config)) then Get(OverridesOf(config), q) else Get(defaults, q)
    {
      MergeGet(defaults, OverridesOf(config), q);
    }
  }

  /** The modes run when the configuration names none. */
  const DEFAULT_SEARCH_MODES: seq<string> := ["fast", "balance", "detail"]

  /** `config.get("search_mode_list", ["fast", "balance", "detail"])`: the
      listed modes when the configuration lists any under that key, the
      three defaults otherwise. */
  function SearchModes(config: Config): (modes: seq<string>)
    requires WellTyped(config)
    ensures "search_mode_list" in config ==> modes == config["search_mode_list"].names
    ensures "search_mode_list" !in config ==> modes == ["fast", "balance", "detail"]
  {
    GetNames(config, "search_mode_list", DEFAULT_SEARCH_MODES)
  }

  /** The search box read from `docking_grid.json`. */
  datatype Pocket = Pocket(centerX: real, centerY: real, centerZ: real, sizeX: real, sizeY: real, sizeZ: real)

  /** `f"{x:.4f}"`; the digits it writes are not part of this model. */
  type Format = real -> string
}

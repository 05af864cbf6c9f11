/** The values a configuration dialog edits, and the keyed store that holds
    them (`ConfigValue` and `ConfigValueModel`). */
module ConfigModel {
  import opened Wrappers

  /** The payload of a configuration value: what the text field produces
      (a string) and the scalars a JSON file can decode to. */
  datatype JValue = JString(s: string) | JInt(i: int) | JBool(b: bool) | JNull

  /** A key together with its value. */
  datatype ConfigValue = ConfigValue(key: string, value: JValue)

  /** A decimal numeral as Java writes one: digits only, and no leading
      zero unless the numeral is `0` itself. */
  predicate Decimal(s: string) {
    s != [] && (forall i :: 0 <= i < |s| ==> '0' <= s[i] <= '9') && (s[0] != '0' || s == "0")
  }

  /** The decimal digits of a natural number. */
  function Digits(n: nat): (r: string)
    ensures Decimal(r)
    ensures r == "0" <==> n == 0
    ensures n < 10 <==> |r| == 1
    decreases n
  {
    if n < 10 then [(n + 48) as char] else Digits(n / 10) + [(n % 10 + 48) as char]
  }

  /** The value of a digit string (the partner of `Digits`). */
  function DigitsValue(s: string): int
    decreases |s|
  {
    if s == [] then 0 else 10 * DigitsValue(s[..|s| - 1]) + (s[|s| - 1] as int - 48)
  }

  lemma {:induction false} DigitsRoundTrip(n: nat)
    ensures DigitsValue(Digits(n)) == n
    decreases n
  {
    if n >= 10 {
      DigitsRoundTrip(n / 10);
      var d := Digits(n / 10) + [(n % 10 + 48) as char];
      assert d[..|d| - 1] == Digits(n / 10);
    }
  }

  /** `String.valueOf` of the payload. */
  function ValueOf(v: JValue): (r: string)
    ensures v.JString? ==> r == v.s
    ensures v.JInt? && v.i >= 0 ==> Decimal(r) && DigitsValue(r) == v.i
    ensures v.JInt? && v.i < 0 ==>
      |r| > 1 && r[0] == '-' && Decimal(r[1..]) && r[1] != '0' && DigitsValue(r[1..]) == -v.i
    ensures v.JBool? ==> r == (if v.b then "true" else "false")
    ensures v.JNull? ==> r == "null"
  {
    match v
    case JString(s) => s
    case JInt(i) =>
      if i < 0 then
        DigitsRoundTrip(-i);
        "-" + Digits(-i)
      else
        DigitsRoundTrip(i);
        Digits(i)
    case JBool(b) => if b then "true" else "false"
    case JNull => "null"
  }

  // ---------------------------------------------------------------------
  // The keyed mapping

  /** Every entry sits under its own key. */
  predicate Keyed(m: map<string, ConfigValue>) {
    forall k :: k in m ==> m[k].key == k
  }

  /** `Optional.ofNullable(values.get(k))`. */
  function Lookup(m: map<string, ConfigValue>, k: string): Option<ConfigValue> {
    if k in m then Some(m[k]) else None
  }

  /** `values.put(v.getKey(), v)`: afterwards the key finds `v`, every other
      key finds what it found before, and entries stay under their keys. */
  function Put(m: map<string, ConfigValue>, v: ConfigValue): (r: map<string, ConfigValue>)
    ensures Lookup(r, v.key) == Some(v)
    ensures forall k :: k != v.key ==> Lookup(r, k) == Lookup(m, k)
    ensures r.Keys == m.Keys + {v.key}
    ensures Keyed(m) ==> Keyed(r)
  {
    m[v.key := v]
  }

  /** Storing twice under the same key keeps only the second value. */
  lemma PutLastWins(m: map<string, ConfigValue>, v: ConfigValue, w: ConfigValue)
    requires v.key == w.key
    ensures Put(Put(m, v), w) == Put(m, w)
  {
    assert Put(Put(m, v), w).Keys == Put(m, w).Keys;
  }

  /** Storing an entry that is already there changes nothing. */
  lemma PutPresent(m: map<string, ConfigValue>, v: ConfigValue)
    requires Lookup(m, v.key) == Some(v)
    ensures Put(m, v) == m
  {
    assert Put(m, v).Keys == m.Keys;
  }

  /** `values.remove(k)`: afterwards the key finds nothing, every other key
      finds what it found before, and an absent key changes nothing. */
  function Without(m: map<string, ConfigValue>, k: string): (r: map<string, ConfigValue>)
    ensures Lookup(r, k) == None
    ensures forall j :: j != k ==> Lookup(r, j) == Lookup(m, j)
    ensures k !in m ==> r == m
    ensures Keyed(m) ==> Keyed(r)
  {
    m - {k}
  }

  /** The keys of a list of values. */
  function KeysOf(vs: seq<ConfigValue>): set<string> {
    set i | 0 <= i < |vs| :: vs[i].key
  }

  /** `vs` lists every entry of `m` exactly once (in some order). */
  predicate Listing(vs: seq<ConfigValue>, m: map<string, ConfigValue>) {
    && (forall i :: 0 <= i < |vs| ==> vs[i].key in m && m[vs[i].key] == vs[i])
    && (forall i, j :: 0 <= i < j < |vs| ==> vs[i].key != vs[j].key)
    && KeysOf(vs) == m.Keys
  }

  lemma KeysOfSnoc(vs: seq<ConfigValue>, v: ConfigValue)
    ensures KeysOf(vs + [v]) == KeysOf(vs) + {v.key}
  {
    var ws := vs + [v];
    forall k | k in KeysOf(ws) ensures k in KeysOf(vs) + {v.key} {
      var i :| 0 <= i < |ws| && ws[i].key == k;
      if i < |vs| {
        assert vs[i] == ws[i];
      }
    }
    forall k | k in KeysOf(vs) ensures k in KeysOf(ws) {
      var i :| 0 <= i < |vs| && vs[i].key == k;
      assert ws[i] == vs[i];
    }
    assert ws[|vs|] == v;
  }

  /** A listing is as long as the mapping has entries. */
  lemma {:induction false} ListingLength(vs: seq<ConfigValue>, m: map<string, ConfigValue>)
    requires Listing(vs, m)
    ensures |vs| == |m|
    decreases |vs|
  {
    if vs == [] {
      assert m.Keys == {};
    } else {
      var p := vs[..|vs| - 1];
      var v := vs[|vs| - 1];
      assert vs == p + [v];
      KeysOfSnoc(p, v);
      assert v.key !in KeysOf(p) by {
        forall i | 0 <= i < |p| ensures p[i].key != v.key {
          assert p[i] == vs[i];
        }
      }
      var m' := m - {v.key};
      assert Listing(p, m') by {
        forall i | 0 <= i < |p| ensures p[i].key in m' && m'[p[i].key] == p[i] {
          assert p[i] == vs[i];
        }
        forall i, j | 0 <= i < j < |p| ensures p[i].key != p[j].key {
          assert p[i] == vs[i] && p[j] == vs[j];
        }
      }
      ListingLength(p, m');
    }
  }

  /** Adding one more entry of `m` to a listing of part of `m`. */
  lemma ListingGrows(vs: seq<ConfigValue>, m: map<string, ConfigValue>, rest: set<string>, k: string)
    requires Keyed(m) && rest <= m.Keys && k in rest
    requires Listing(vs, m - rest)
    ensures Listing(vs + [m[k]], m - (rest - {k}))
  {
    var ws := vs + [m[k]];
    var m' := m - (rest - {k});
    KeysOfSnoc(vs, m[k]);
    forall i | 0 <= i < |ws| ensures ws[i].key in m' && m'[ws[i].key] == ws[i] {
      if i < |vs| {
        assert ws[i] == vs[i];
      }
    }
    forall i, j | 0 <= i < j < |ws| ensures ws[i].key != ws[j].key {
      if j < |vs| {
        assert ws[i] == vs[i] && ws[j] == vs[j];
      } else {
        assert ws[i] == vs[i];
        assert vs[i].key in (m - rest).Keys;
      }
    }
  }

  // ---------------------------------------------------------------------
  // The model object

  class ConfigValueModel {
    var values: map<string, ConfigValue>

    /** The store's invariant: each value is stored under its own key. */
    predicate Valid()
      reads this
    {
      Keyed(values)
    }

    constructor()
      ensures Valid() && values == map[]
    {
      values := map[];
    }

    /** `add`: last write wins for `v.key`; no other key changes. */
    method Add(v: ConfigValue)
      modifies this
      ensures values == Put(old(values), v)
    {
      values := values[v.key := v];
    }

    /** `remove`. */
    method Remove(key: string)
      modifies this
      ensures values == Without(old(values), key)
    {
      values := values - {key};
    }

    /** `get`: the value stored under `key`, if any. */
    method Get(key: string) returns (r: Option<ConfigValue>)
      ensures r.Some? <==> key in values
      ensures r.Some? ==> r.value == values[key]
    {
      r := if key in values then Some(values[key]) else None;
    }

    /** `exportRaw`: a copy equal to the current mapping. The copy is a
        value, so later changes to the model do not reach it. */
    method ExportRaw() returns (copy: map<string, ConfigValue>)
      ensures copy == values
    {
      copy := values;
    }

    /** `exportFlatValues`: the same keys, each mapped to its entry's
        payload. */
    method ExportFlatValues() returns (raw: map<string, JValue>)
      ensures raw.Keys == values.Keys
      ensures forall k :: k in raw ==> raw[k] == values[k].value
    {
      raw := map[];
      var rest := values.Keys;
      while rest != {}
        invariant rest <= values.Keys
        invariant raw.Keys == values.Keys - rest
        invariant forall k :: k in raw ==> raw[k] == values[k].value
        decreases |rest|
      {
        var k :| k in rest;
        raw := raw[k := values[k].value];
        rest := rest - {k};
      }
    }

    /** `all`: every stored value once, in the store's iteration order,
        which the model leaves open. */
    method All() returns (vs: seq<ConfigValue>)
      requires Valid()
      ensures Listing(vs, values)
    {
      vs := [];
      var rest := values.Keys;
      while rest != {}
        invariant rest <= values.Keys
        invariant Listing(vs, values - rest)
        decreases |rest|
      {
        var k :| k in rest;
        ListingGrows(vs, values, rest, k);
        vs := vs + [values[k]];
        rest := rest - {k};
      }
      assert values - rest == values;
    }

    /** `clear`: afterwards no key finds anything. */
    method Clear()
      modifies this
      ensures values == map[]
      ensures forall k :: Lookup(values, k) == None
    {
      values := map[];
    }
  }

  /** An export taken before a change still shows the mapping as it was. */
  method ExportIsSnapshot(model: ConfigValueModel, v: ConfigValue) returns (snapshot: map<string, ConfigValue>)
    modifies model
    ensures snapshot == old(model.values)
    ensures model.values == Put(old(model.values), v)
  {
    snapshot := model.ExportRaw();
    model.Add(v);
  }
}

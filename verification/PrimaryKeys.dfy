/** The text that identifies a row in the buffer: `name=value` for every key column, in sorted order. */
module PrimaryKeys {
  import opened Values
  import opened Texts

  /** `keys` lists the set without repetition, in sorted order. */
  ghost predicate Lists(keys: seq<string>, names: set<string>) {
    && (forall i, j :: 0 <= i < j < |keys| ==> LexLeq(keys[i], keys[j]) && keys[i] != keys[j])
    && (forall name :: name in names <==> name in keys)
  }

  /** A sorted listing is determined by the set it lists. */
  lemma {:induction false} ListingIsUnique(a: seq<string>, b: seq<string>, names: set<string>)
    requires Lists(a, names) && Lists(b, names)
    ensures a == b
    decreases |a|
  {
    if a == [] {
      NothingInEmpty(b);
    } else {
      assert a[0] in b && b != [];
      assert b[0] in a by { assert b[0] in names; }
      var i :| 0 <= i < |b| && b[i] == a[0];
      var j :| 0 <= j < |a| && a[j] == b[0];
      if i > 0 && j > 0 { LexAntisymmetric(a[0], b[0]); }
      assert a[0] == b[0];
      ListsTail(a, names);
      ListsTail(b, names);
      ListingIsUnique(a[1..], b[1..], names - {a[0]});
      assert a == [a[0]] + a[1..] && b == [b[0]] + b[1..];
    }
  }

  lemma ListsTail(keys: seq<string>, names: set<string>)
    requires keys != [] && Lists(keys, names)
    ensures Lists(keys[1..], names - {keys[0]})
  {
    forall name ensures name in names - {keys[0]} <==> name in keys[1..] {
      assert name in keys <==> name == keys[0] || name in keys[1..] by { assert keys == [keys[0]] + keys[1..]; }
      if name in keys[1..] { var i :| 0 <= i < |keys| - 1 && keys[1..][i] == name; assert keys[i + 1] == name; }
    }
  }

  function KeyText(keys: seq<string>, values: map<string, string>): string
    requires forall key :: key in keys ==> key in values
  {
    if keys == [] then ""
    else assert keys[0] in keys; keys[0] + "=" + values[keys[0]] + KeyText(keys[1..], values)
  }

  // ---------------------------------------------------------------------------------------------
  // The methods of Event

  /** `sort.Strings`, as insertion into a sorted list. */
  method Insert(sorted: seq<string>, name: string, ghost names: set<string>) returns (r: seq<string>)
    requires Lists(sorted, names) && name !in names
    ensures Lists(r, names + {name})
  {
    var i := |sorted|;
    while i > 0 && !LexLeq(sorted[i - 1], name)
      invariant 0 <= i <= |sorted|
      invariant forall k :: i <= k < |sorted| ==> LexLeq(name, sorted[k])
    {
      LexTotal(sorted[i - 1], name);
      i := i - 1;
    }
    r := sorted[..i] + [name] + sorted[i..];
    InsertedLists(sorted, name, names, i);
  }

  lemma InsertedLists(sorted: seq<string>, name: string, names: set<string>, i: nat)
    requires Lists(sorted, names) && name !in names && i <= |sorted|
    requires i > 0 ==> LexLeq(sorted[i - 1], name)
    requires forall k :: i <= k < |sorted| ==> LexLeq(name, sorted[k])
    ensures Lists(sorted[..i] + [name] + sorted[i..], names + {name})
  {
    var r := sorted[..i] + [name] + sorted[i..];
    forall k | 0 <= k < i ensures LexLeq(sorted[k], name) {
      if k < i - 1 { LexTransitive(sorted[k], sorted[i - 1], name); }
    }
    forall a, b | 0 <= a < b < |r| ensures LexLeq(r[a], r[b]) && r[a] != r[b] {
      InsertedAt(sorted, name, i, a);
      InsertedAt(sorted, name, i, b);
    }
    forall x ensures x in names + {name} <==> x in r { assert sorted == sorted[..i] + sorted[i..]; }
  }

  lemma InsertedAt(sorted: seq<string>, name: string, i: nat, k: nat)
    requires i <= |sorted| && k <= |sorted|
    ensures (sorted[..i] + [name] + sorted[i..])[k] ==
      if k < i then sorted[k] else if k == i then name else sorted[k - 1]
    ensures k < |sorted| ==> sorted[k] in sorted
    ensures k > 0 ==> sorted[k - 1] in sorted
  {}

  /** Collects the names in whatever order the map yields them and sorts them. */
  method SortedNames(primaryKeyMap: map<string, string>) returns (keys: seq<string>)
    ensures Lists(keys, primaryKeyMap.Keys)
  {
    keys := [];
    var todo := primaryKeyMap.Keys;
    ghost var done := {};
    while todo != {}
      invariant todo <= primaryKeyMap.Keys && done == primaryKeyMap.Keys - todo
      invariant Lists(keys, done)
      decreases |todo|
    {
      var name :| name in todo;
      keys := Insert(keys, name, done);
      todo, done := todo - {name}, done + {name};
    }
  }

  /** The text is the one that the sorted listing gives, whatever order the map was visited in. */
  method PrimaryKeyValue(primaryKeyMap: map<string, string>) returns (text: string)
    ensures forall keys :: Lists(keys, primaryKeyMap.Keys) ==> text == KeyText(keys, primaryKeyMap)
  {
    var keys := SortedNames(primaryKeyMap);
    text := "";
    for i := 0 to |keys|
      invariant KeyText(keys, primaryKeyMap) == text + KeyText(keys[i..], primaryKeyMap)
    {
      var name := keys[i];
      assert name in keys;
      KeyTextStep(keys, primaryKeyMap, text, i);
      text := text + (name + "=" + primaryKeyMap[name]);
    }
    forall other | Lists(other, primaryKeyMap.Keys) ensures text == KeyText(other, primaryKeyMap) {
      ListingIsUnique(other, keys, primaryKeyMap.Keys);
    }
  }

  lemma KeyTextStep(keys: seq<string>, values: map<string, string>, text: string, i: nat)
    requires i < |keys| && forall key :: key in keys ==> key in values
    ensures keys[i] in keys
    ensures text + KeyText(keys[i..], values) ==
      text + (keys[i] + "=" + values[keys[i]]) + KeyText(keys[i + 1..], values)
  {
    assert keys[i..][1..] == keys[i + 1..];
    var piece := keys[i] + "=" + values[keys[i]];
    assert KeyText(keys[i..], values) == piece + KeyText(keys[i + 1..], values);
  }

  // ---------------------------------------------------------------------------------------------
  // Injectivity

  function FirstEquals(s: string): nat {
    if s == [] || s[0] == '=' then 0 else 1 + FirstEquals(s[1..])
  }

  lemma {:induction false} FirstEqualsAfter(value: string, rest: string)
    requires FreeOf(value, '=')
    ensures FirstEquals(value + rest) == |value| + FirstEquals(rest)
  {
    if value != [] {
      FirstEqualsAfter(value[1..], rest);
      assert (value + rest)[1..] == value[1..] + rest;
    } else {
      assert value + rest == rest;
    }
  }

  lemma {:induction false} FirstEqualsWithin(name: string, a: string, b: string)
    ensures FirstEquals(name + "=" + a) == FirstEquals(name + "=" + b)
  {
    if name == [] {
      assert name + "=" + a == ['='] + a && name + "=" + b == ['='] + b;
    } else {
      FirstEqualsWithin(name[1..], a, b);
      assert (name + "=" + a)[1..] == name[1..] + "=" + a;
      assert (name + "=" + b)[1..] == name[1..] + "=" + b;
    }
  }

  /** Equal values are cut off at the same place when the same name follows. */
  lemma SameCut(v: string, w: string, name: string, a: string, b: string)
    requires FreeOf(v, '=') && FreeOf(w, '=')
    requires v + (name + "=" + a) == w + (name + "=" + b)
    ensures v == w && a == b
  {
    FirstEqualsAfter(v, name + "=" + a);
    FirstEqualsAfter(w, name + "=" + b);
    FirstEqualsWithin(name, a, b);
    assert v == (v + (name + "=" + a))[..|v|] && w == (w + (name + "=" + b))[..|v|];
    assert name + "=" + a == (v + (name + "=" + a))[|v|..] && name + "=" + b == (w + (name + "=" + b))[|v|..];
    assert a == (name + "=" + a)[|name| + 1..] && b == (name + "=" + b)[|name| + 1..];
  }

  /** As long as no value but the last column's contains `=`, the text gives back the values. */
  lemma {:induction false} TextGivesValues(keys: seq<string>, m: map<string, string>, n: map<string, string>)
    requires forall key :: key in keys ==> key in m && key in n
    requires forall i :: 0 <= i < |keys| - 1 ==> FreeOf(m[keys[i]], '=') && FreeOf(n[keys[i]], '=')
    requires KeyText(keys, m) == KeyText(keys, n)
    ensures forall key :: key in keys ==> m[key] == n[key]
  {
    if keys != [] {
      var first, rest := keys[0], keys[1..];
      assert first in keys;
      var v, w := m[first], n[first];
      assert KeyText(keys, m) == first + "=" + v + KeyText(rest, m);
      assert KeyText(keys, n) == first + "=" + w + KeyText(rest, n);
      assert v + KeyText(rest, m) == (first + "=" + v + KeyText(rest, m))[|first| + 1..];
      assert w + KeyText(rest, n) == (first + "=" + w + KeyText(rest, n))[|first| + 1..];
      if rest == [] {
        assert v + "" == v && w + "" == w;
      } else {
        assert rest[0] in keys;
        var a, b := m[rest[0]] + KeyText(rest[1..], m), n[rest[0]] + KeyText(rest[1..], n);
        assert KeyText(rest, m) == rest[0] + "=" + a;
        assert KeyText(rest, n) == rest[0] + "=" + b;
        SameCut(v, w, rest[0], a, b);
        assert forall i :: 0 <= i < |rest| ==> rest[i] == keys[i + 1];
        TextGivesValues(rest, m, n);
      }
      assert forall key :: key in keys ==> key == first || key in rest;
    }
  }

  /**
   * Over one set of key columns texts are equal exactly when the values are, as long as no value but
   * the last column's contains `=`; names may contain anything.
   */
  lemma KeyTextInjective(keys: seq<string>, m: map<string, string>, n: map<string, string>)
    requires forall key :: key in keys ==> key in m && key in n
    requires forall i :: 0 <= i < |keys| - 1 ==> FreeOf(m[keys[i]], '=') && FreeOf(n[keys[i]], '=')
    ensures KeyText(keys, m) == KeyText(keys, n) <==> forall key :: key in keys ==> m[key] == n[key]
  {
    if KeyText(keys, m) == KeyText(keys, n) {
      TextGivesValues(keys, m, n);
    }
    if forall key :: key in keys ==> m[key] == n[key] {
      SameValuesSameText(keys, m, n);
    }
  }

  /** Two rows with different keys and the same text, once a value contains `=`. */
  lemma KeyTextCollides()
    ensures var keys := ["a", "b"];
      && KeyText(keys, map["a" := "1", "b" := "2b=3"]) == KeyText(keys, map["a" := "1b=2", "b" := "3"])
      && map["a" := "1", "b" := "2b=3"] != map["a" := "1b=2", "b" := "3"]
  {
    var keys := ["a", "b"];
    var m, n := map["a" := "1", "b" := "2b=3"], map["a" := "1b=2", "b" := "3"];
    assert keys[1..] == ["b"] && ["b"][1..] == [];
    assert KeyText(["b"], m) == "b=2b=3" && KeyText(["b"], n) == "b=3";
    assert KeyText(keys, m) == "a=1b=2b=3";
    assert KeyText(keys, n) == "a=1b=2b=3";
    assert m["a"] != n["a"];
  }

  ghost predicate SameText(keys: seq<string>, a: map<string, string>, b: map<string, string>) {
    && (forall key :: key in keys ==> key in a && key in b)
    && KeyText(keys, a) == KeyText(keys, b)
  }

  ghost predicate SameValues(keys: seq<string>, a: map<string, string>, b: map<string, string>) {
    forall key :: key in keys ==> key in a && key in b && a[key] == b[key]
  }

  lemma {:induction false} SameValuesSameText(keys: seq<string>, a: map<string, string>, b: map<string, string>)
    requires SameValues(keys, a, b)
    ensures KeyText(keys, a) == KeyText(keys, b)
  {
    if keys != [] {
      assert keys[0] in keys && forall key :: key in keys[1..] ==> key in keys;
      SameValuesSameText(keys[1..], a, b);
    }
  }

  /** Over all values, the text identifies the key exactly when the key has a single column. */
  lemma KeyTextExact(keys: seq<string>, names: set<string>)
    requires Lists(keys, names)
    ensures (forall a, b :: SameText(keys, a, b) ==> SameValues(keys, a, b)) <==> |keys| <= 1
  {
    if |keys| <= 1 {
      forall a, b | SameText(keys, a, b) ensures SameValues(keys, a, b) { SingleKeyText(keys, a, b); }
    } else {
      var a, b := Collision(keys, names);
      assert SameText(keys, a, b) && !SameValues(keys, a, b);
    }
  }

  lemma SingleKeyText(keys: seq<string>, a: map<string, string>, b: map<string, string>)
    requires |keys| <= 1 && SameText(keys, a, b)
    ensures SameValues(keys, a, b)
  {
    if keys != [] {
      var key := keys[0];
      assert keys[1..] == [] && key in keys;
      assert KeyText(keys, a) == (key + "=") + a[key] && KeyText(keys, b) == (key + "=") + b[key];
      assert ((key + "=") + a[key])[|key + "="|..] == a[key];
      assert ((key + "=") + b[key])[|key + "="|..] == b[key];
    }
  }

  /** Any two columns give two different keys with one text. */
  lemma Collision(keys: seq<string>, names: set<string>) returns (a: map<string, string>, b: map<string, string>)
    requires Lists(keys, names) && |keys| >= 2
    ensures SameText(keys, a, b) && !SameValues(keys, a, b)
  {
    var extra := keys[1] + "=";
    a := map key | key in names :: if key == keys[1] then extra else "";
    b := map key | key in names :: if key == keys[0] then extra else "";
    assert keys[0] in keys && keys[1] in keys && keys[0] != keys[1];
    forall key | key in keys[2..] ensures key in keys && key != keys[0] && key != keys[1] {
      var i :| 0 <= i < |keys| - 2 && keys[2..][i] == key;
      assert keys[i + 2] == key;
    }
    CollidingText(keys, a, b, extra);
  }

  lemma CollidingText(keys: seq<string>, a: map<string, string>, b: map<string, string>, extra: string)
    requires |keys| >= 2 && extra == keys[1] + "=" && forall key :: key in keys ==> key in a && key in b
    requires a[keys[0]] == "" && a[keys[1]] == extra && b[keys[0]] == extra && b[keys[1]] == ""
    requires SameValues(keys[2..], a, b)
    ensures KeyText(keys, a) == KeyText(keys, b)
  {
    SameValuesSameText(keys[2..], a, b);
    TwoColumns(keys, a);
    TwoColumns(keys, b);
    var head, tail := keys[0] + "=", KeyText(keys[2..], a);
    assert head + "" == head && extra + "" == extra;
    assert head + (extra + extra + tail) == (head + extra) + (extra + tail);
  }

  lemma TwoColumns(keys: seq<string>, m: map<string, string>)
    requires |keys| >= 2 && forall key :: key in keys ==> key in m
    ensures keys[0] in m && keys[1] in m && forall key :: key in keys[2..] ==> key in m
    ensures KeyText(keys, m) == (keys[0] + "=" + m[keys[0]]) + ((keys[1] + "=" + m[keys[1]]) + KeyText(keys[2..], m))
  {
    assert keys[0] in keys && keys[1] in keys && keys[1..][0] == keys[1] && keys[1..][1..] == keys[2..];
    assert forall key :: key in keys[2..] ==> key in keys;
  }
}

/** Partition keys in Kafka's string format, `Struct{k=v,k1=v1}`. */
module PartitionKeys {
  import opened Values
  import opened Texts

  const STRING_PREFIX := "Struct{"
  const STRING_SUFFIX := "}"
  const ROUTING_KEY := "__dbz__physicalTableIdentifier"

  // ---------------------------------------------------------------------------------------------
  // Splitting and joining

  /** `strings.Split(s, c)` for a one-byte separator. */
  function Split(s: string, c: char): (parts: seq<string>)
    ensures parts != []
  {
    if s == [] then [""]
    else
      var rest := Split(s[1..], c);
      if s[0] == c then [""] + rest else [[s[0]] + rest[0]] + rest[1..]
  }

  /** `strings.Join(parts, c)` */
  function Join(parts: seq<string>, c: char): string {
    if parts == [] then ""
    else if |parts| == 1 then parts[0]
    else parts[0] + [c] + Join(parts[1..], c)
  }

  lemma {:induction false} JoinInvertsSplit(s: string, c: char)
    ensures Join(Split(s, c), c) == s
  {
    if s != [] {
      JoinInvertsSplit(s[1..], c);
      var rest := Split(s[1..], c);
      if s[0] == c {
        assert ([""] + rest)[1..] == rest;
      } else {
        var parts := [[s[0]] + rest[0]] + rest[1..];
        if |rest| > 1 { assert parts[1..] == rest[1..]; }
      }
      assert s == [s[0]] + s[1..];
    }
  }

  lemma {:induction false} SplitAtFirst(a: string, c: char, b: string)
    requires FreeOf(a, c)
    ensures Split(a + [c] + b, c) == [a] + Split(b, c)
  {
    var s := a + [c] + b;
    if a == [] {
      assert s[0] == c && s[1..] == b;
    } else {
      SplitAtFirst(a[1..], c, b);
      assert s[1..] == a[1..] + [c] + b;
      var rest := Split(s[1..], c);
      assert rest[1..] == Split(b, c);
      assert s[0] == a[0] && a == [a[0]] + a[1..];
    }
  }

  lemma {:induction false} SplitWithout(a: string, c: char)
    requires FreeOf(a, c)
    ensures Split(a, c) == [a]
  {
    if a != [] {
      SplitWithout(a[1..], c);
      assert a == [a[0]] + a[1..];
    }
  }

  lemma {:induction false} SplitInvertsJoin(parts: seq<string>, c: char)
    requires parts != [] && forall i :: 0 <= i < |parts| ==> FreeOf(parts[i], c)
    ensures Split(Join(parts, c), c) == parts
  {
    if |parts| == 1 {
      SplitWithout(parts[0], c);
    } else {
      SplitInvertsJoin(parts[1..], c);
      SplitAtFirst(parts[0], c, Join(parts[1..], c));
    }
  }

  // ---------------------------------------------------------------------------------------------
  // Parsing

  /** The name before the first `=` and everything behind it. */
  function KeyValue(part: string): Option<(string, string)> {
    var pieces := Split(part, '=');
    if |pieces| < 2 then None else Some((pieces[0], Join(pieces[1..], '=')))
  }

  function Parsed(parts: seq<string>): Option<map<string, string>> {
    if parts == [] then Some(map[])
    else
      var front, last := Parsed(parts[..|parts| - 1]), KeyValue(parts[|parts| - 1]);
      if front.None? || last.None? then None else Some(front.value[last.value.0 := last.value.1])
  }

  /** Every name is normalised; a name that two keys share gets the value of either. */
  ghost predicate Sanitizes(raw: map<string, string>, clean: map<string, string>) {
    && clean.Keys == (set key | key in raw :: EscapeName(key))
    && forall name :: name in clean ==> exists key :: key in raw && EscapeName(key) == name && raw[key] == clean[name]
  }

  function Body(key: string): Result<string> {
    if key == "" then Err("key is nil")
    else if |STRING_PREFIX| + |STRING_SUFFIX| >= |key| then Err("key is too short")
    else if !(STRING_PREFIX <= key && key[|key| - 1] == '}') then Err("incorrect key structure")
    else Ok(key[|STRING_PREFIX|..|key| - 1])
  }

  /** What the parser may answer: nothing but the choice between colliding names is left open. */
  ghost predicate Parses(key: string, r: Result<map<string, string>>) {
    match Body(key)
    case Err(error) => r == Err(error)
    case Ok(body) =>
      match Parsed(Split(body, ','))
      case None => r.Err?
      case Some(raw) => r.Ok? && Sanitizes(raw - {ROUTING_KEY}, r.value)
  }

  lemma SanitizesOneMore(raw: map<string, string>, done: set<string>, key: string, clean: map<string, string>)
    requires done <= raw.Keys && key in raw && key !in done && Sanitizes(map k | k in done :: raw[k], clean)
    ensures Sanitizes(map k | k in done + {key} :: raw[k], clean[EscapeName(key) := raw[key]])
  {
    var seen, next := map k | k in done :: raw[k], map k | k in done + {key} :: raw[k];
    var after := clean[EscapeName(key) := raw[key]];
    assert next.Keys == seen.Keys + {key};
    forall name | name in after ensures exists k :: k in next && EscapeName(k) == name && next[k] == after[name] {
      if name == EscapeName(key) {
        assert key in next && next[key] == after[name];
      } else {
        var k :| k in seen && EscapeName(k) == name && seen[k] == clean[name];
        assert k in next && next[k] == after[name];
      }
    }
  }

  method SanitizePayload(raw: map<string, string>) returns (clean: map<string, string>)
    ensures Sanitizes(raw, clean)
  {
    clean := map[];
    var todo := raw.Keys;
    while todo != {}
      invariant todo <= raw.Keys
      invariant Sanitizes(map key | key in raw.Keys - todo :: raw[key], clean)
      decreases |todo|
    {
      var key :| key in todo;
      SanitizesOneMore(raw, raw.Keys - todo, key, clean);
      assert raw.Keys - todo + {key} == raw.Keys - (todo - {key});
      todo, clean := todo - {key}, clean[EscapeName(key) := raw[key]];
    }
    assert raw == map key | key in raw.Keys - todo :: raw[key];
  }

  method ParsePartitionKeyString(key: string) returns (r: Result<map<string, string>>)
    ensures Parses(key, r)
  {
    if |key| == 0 { return Err("key is nil"); }
    if |STRING_PREFIX| + |STRING_SUFFIX| >= |key| { return Err("key is too short"); }
    if !(STRING_PREFIX <= key && key[|key| - 1] == '}') { return Err("incorrect key structure"); }
    var parts := Split(key[|STRING_PREFIX|..|key| - 1], ',');
    var raw: map<string, string> := map[];
    for i := 0 to |parts|
      invariant Parsed(parts[..i]) == Some(raw)
    {
      assert parts[..i + 1][..i] == parts[..i];
      var pieces := Split(parts[i], '=');
      if |pieces| < 2 {
        ParsedFails(parts, i);
        return Err("malformed key value pair");
      }
      raw := raw[pieces[0] := Join(pieces[1..], '=')];
    }
    assert parts[..|parts|] == parts;
    var clean := SanitizePayload(raw - {ROUTING_KEY});
    return Ok(clean);
  }

  lemma {:induction false} ParsedFails(parts: seq<string>, i: nat)
    requires i < |parts| && KeyValue(parts[i]).None?
    ensures Parsed(parts).None?
    decreases |parts|
  {
    if i < |parts| - 1 { ParsedFails(parts[..|parts| - 1], i); }
  }

  // ---------------------------------------------------------------------------------------------
  // Printing, and the round trip

  type Pairs = seq<(string, string)>

  function Printed(pairs: Pairs): string {
    STRING_PREFIX + Join(PrintedParts(pairs), ',') + STRING_SUFFIX
  }

  function PrintedParts(pairs: Pairs): seq<string> {
    seq(|pairs|, i requires 0 <= i < |pairs| => pairs[i].0 + "=" + pairs[i].1)
  }

  function AsMap(pairs: Pairs): map<string, string> {
    if pairs == [] then map[]
    else AsMap(pairs[..|pairs| - 1])[pairs[|pairs| - 1].0 := pairs[|pairs| - 1].1]
  }

  /** Names: without `,` or `=`, and not the routing key.  Values: without `,`. */
  predicate Separable(pairs: Pairs) {
    forall i :: 0 <= i < |pairs| ==>
      && pairs[i].0 != ROUTING_KEY && FreeOf(pairs[i].0, ',') && FreeOf(pairs[i].0, '=') && FreeOf(pairs[i].1, ',')
  }

  /** With names that are normalised already. */
  predicate Printable(pairs: Pairs) {
    Separable(pairs) && forall i :: 0 <= i < |pairs| ==> EscapeName(pairs[i].0) == pairs[i].0
  }

  lemma KeyValueOfPrinted(name: string, value: string)
    requires FreeOf(name, '=')
    ensures KeyValue(name + "=" + value) == Some((name, value))
  {
    SplitAtFirst(name, '=', value);
    JoinInvertsSplit(value, '=');
    assert ([name] + Split(value, '='))[1..] == Split(value, '=');
  }

  lemma {:induction false} ParsedPrinted(pairs: Pairs)
    requires Separable(pairs)
    ensures Parsed(PrintedParts(pairs)) == Some(AsMap(pairs))
    ensures forall name :: name in AsMap(pairs) <==> exists i :: 0 <= i < |pairs| && pairs[i].0 == name
  {
    if pairs != [] {
      var front, last := pairs[..|pairs| - 1], pairs[|pairs| - 1];
      ParsedPrinted(front);
      KeyValueOfPrinted(last.0, last.1);
      assert PrintedParts(pairs)[..|pairs| - 1] == PrintedParts(front);
      assert forall i :: 0 <= i < |front| ==> front[i] == pairs[i];
    }
  }

  lemma SanitizedNormalised(raw: map<string, string>, clean: map<string, string>)
    requires forall name :: name in raw ==> EscapeName(name) == name
    requires Sanitizes(raw, clean)
    ensures clean == raw
  {
    forall name ensures name in clean <==> name in raw {
      if name in raw { assert EscapeName(name) in clean.Keys; }
    }
  }

  lemma BodyOfPrinted(pairs: Pairs)
    requires pairs != []
    ensures Body(Printed(pairs)) == Ok(Join(PrintedParts(pairs), ','))
  {
    var body := Join(PrintedParts(pairs), ',');
    var key := Printed(pairs);
    assert PrintedParts(pairs)[0] == pairs[0].0 + "=" + pairs[0].1;
    assert |body| > 0;
    assert key[..|STRING_PREFIX|] == STRING_PREFIX;
    assert key[|STRING_PREFIX|..|key| - 1] == body;
  }

  /** Whatever the parser answers for a printed map, it is that map: values may contain `=` and `}`. */
  lemma ParseInvertsPrint(pairs: Pairs, r: Result<map<string, string>>)
    requires pairs != [] && Printable(pairs)
    requires Parses(Printed(pairs), r)
    ensures r == Ok(AsMap(pairs))
  {
    BodyOfPrinted(pairs);
    var parts := PrintedParts(pairs);
    forall i | 0 <= i < |parts| ensures FreeOf(parts[i], ',') {}
    SplitInvertsJoin(parts, ',');
    ParsedPrinted(pairs);
    assert AsMap(pairs) - {ROUTING_KEY} == AsMap(pairs);
    SanitizedNormalised(AsMap(pairs), r.value);
  }

  lemma {:induction false} AsMapAt(pairs: Pairs, i: nat)
    requires i < |pairs| && forall j :: 0 <= j < |pairs| && j != i ==> pairs[j].0 != pairs[i].0
    ensures pairs[i].0 in AsMap(pairs) && AsMap(pairs)[pairs[i].0] == pairs[i].1
  {
    if i < |pairs| - 1 {
      var front := pairs[..|pairs| - 1];
      assert forall j :: 0 <= j < |front| ==> front[j] == pairs[j];
      AsMapAt(front, i);
    }
  }

  /** Other names come out normalised, each with its value as long as no two of them fall together. */
  lemma ParseNormalisesNames(pairs: Pairs, r: Result<map<string, string>>, i: nat)
    requires i < |pairs| && Separable(pairs) && Parses(Printed(pairs), r)
    requires forall j :: 0 <= j < |pairs| && j != i ==> EscapeName(pairs[j].0) != EscapeName(pairs[i].0)
    ensures r.Ok? && EscapeName(pairs[i].0) in r.value && r.value[EscapeName(pairs[i].0)] == pairs[i].1
    ensures forall name :: name in r.value ==> exists j :: 0 <= j < |pairs| && EscapeName(pairs[j].0) == name
  {
    BodyOfPrinted(pairs);
    var parts, raw := PrintedParts(pairs), AsMap(pairs);
    forall k | 0 <= k < |parts| ensures FreeOf(parts[k], ',') {}
    SplitInvertsJoin(parts, ',');
    ParsedPrinted(pairs);
    assert raw - {ROUTING_KEY} == raw;
    AsMapAt(pairs, i);
    assert EscapeName(pairs[i].0) in r.value.Keys;
    var key :| key in raw && EscapeName(key) == EscapeName(pairs[i].0) && raw[key] == r.value[EscapeName(pairs[i].0)];
    forall name | name in r.value ensures exists j :: 0 <= j < |pairs| && EscapeName(pairs[j].0) == name {
      var k :| k in raw && EscapeName(k) == name && raw[k] == r.value[name];
    }
  }

  // ---------------------------------------------------------------------------------------------
  // What is accepted

  lemma {:induction false} SplitCuts(s: string, c: char)
    ensures |Split(s, c)| >= 2 <==> c in s
    ensures forall part :: part in Split(s, c) ==> FreeOf(part, c)
  {
    if s != [] {
      SplitCuts(s[1..], c);
      assert s == [s[0]] + s[1..];
      var rest := Split(s[1..], c);
      assert rest[0] in rest;
    }
  }

  lemma {:induction false} ParsedExactly(parts: seq<string>)
    ensures Parsed(parts).Some? <==> forall part :: part in parts ==> '=' in part
  {
    if parts != [] {
      var front, last := parts[..|parts| - 1], parts[|parts| - 1];
      ParsedExactly(front);
      SplitCuts(last, '=');
      assert parts == front + [last];
    }
  }

  /** A key is accepted exactly if it is `Struct{...}` around something, each part of which contains `=`. */
  lemma AcceptedExactly(key: string, r: Result<map<string, string>>)
    requires Parses(key, r)
    ensures r.Ok? <==>
      && |key| > 8 && key[..7] == "Struct{" && key[|key| - 1] == '}'
      && forall part :: part in Split(key[7..|key| - 1], ',') ==> '=' in part
  {
    if |key| > 8 {
      assert "Struct{" <= key <==> key[..7] == "Struct{";
      ParsedExactly(Split(key[7..|key| - 1], ','));
    }
  }

  /** The pair that names the physical table is left out. */
  lemma RoutingKeyIsLeftOut(table: string, pairs: Pairs, r: Result<map<string, string>>)
    requires pairs != [] && Printable(pairs) && FreeOf(table, ',')
    requires Parses(Printed([("__dbz__physicalTableIdentifier", table)] + pairs), r)
    ensures r == Ok(AsMap(pairs))
  {
    var all: Pairs := [(ROUTING_KEY, table)] + pairs;
    var parts := PrintedParts(all);
    BodyOfPrinted(all);
    forall i | 0 <= i < |parts| ensures FreeOf(parts[i], ',') { assert i > 0 ==> all[i] == pairs[i - 1]; }
    SplitInvertsJoin(parts, ',');
    ParsedRouted(table, pairs);
    ParsedPrinted(pairs);
    SanitizedNormalised(AsMap(pairs), r.value);
  }

  lemma {:induction false} ParsedRouted(table: string, pairs: Pairs)
    requires Printable(pairs)
    ensures Parsed(PrintedParts([(ROUTING_KEY, table)] + pairs)).Some?
    ensures Parsed(PrintedParts([(ROUTING_KEY, table)] + pairs)).value - {ROUTING_KEY} == AsMap(pairs)
  {
    var all: Pairs := [(ROUTING_KEY, table)] + pairs;
    var front, last := all[..|all| - 1], all[|all| - 1];
    assert PrintedParts(all)[..|all| - 1] == PrintedParts(front);
    KeyValueOfPrinted(last.0, last.1);
    if pairs != [] {
      assert front == [(ROUTING_KEY, table)] + pairs[..|pairs| - 1] && last == pairs[|pairs| - 1];
      ParsedRouted(table, pairs[..|pairs| - 1]);
    } else {
      assert Parsed(PrintedParts(front)) == Some(map[]);
    }
  }
}

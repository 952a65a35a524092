/**
 Canonical JSON: `json.dumps(value, sort_keys=True, separators=(",", ":"))`, on every value that has no
 floating-point number in it, and a parser that undoes it.
 */
module Json {
  import opened JsonText
  import opened Lexicographic
  import opened Options
  import opened Sorting
  import opened Text

  datatype Json = Null | Bool(b: bool) | Int(n: int) | Str(s: string) | Arr(elements: seq<Json>) | Obj(members: map<string, Json>)

  // ---- Keys in order ----

  ghost predicate IsLeast(k: string, keys: set<string>) {
    k in keys && forall j <- keys :: TextLe(k, j)
  }

  lemma {:induction false} LeastExists(keys: set<string>)
    requires keys != {}
    ensures exists k :: IsLeast(k, keys)
  {
    TextAndPathOrder();
    var k :| k in keys;
    if keys == {k} {
      assert IsLeast(k, keys);
    } else {
      var rest := keys - {k};
      LeastExists(rest);
      var m :| IsLeast(m, rest);
      assert forall j <- keys :: j == k || j in rest;
      assert IsLeast(if TextLe(k, m) then k else m, keys);
    }
  }

  function Least(keys: set<string>): (k: string)
    requires keys != {}
    ensures IsLeast(k, keys)
  {
    LeastExists(keys);
    TextAndPathOrder();
    var k :| k in keys && forall j <- keys :: TextLe(k, j);
    k
  }

  function SortedKeys(keys: set<string>): (r: seq<string>)
    ensures forall k :: k in r <==> k in keys
    ensures |r| == |keys|
  {
    if keys == {} then [] else [Least(keys)] + SortedKeys(keys - {Least(keys)})
  }

  ghost predicate Ascending(keys: seq<string>) {
    forall i, j :: 0 <= i < j < |keys| ==> TextBefore(keys[i], keys[j])
  }

  lemma AscendingCons(k: string, rest: seq<string>)
    requires Ascending(rest) && forall j <- rest :: TextLe(k, j) && k != j
    ensures Ascending([k] + rest)
  {
    var r := [k] + rest;
    forall i, j | 0 <= i < j < |r| ensures TextBefore(r[i], r[j]) {
      assert r[j] == rest[j - 1];
      if i == 0 { TextLeExactly(k, r[j]); }
    }
  }

  /** Keys are listed once each, in the order of their code points. */
  lemma {:induction false} KeysInOrder(keys: set<string>)
    ensures Ascending(SortedKeys(keys))
  {
    if keys != {} {
      var rest := keys - {Least(keys)};
      KeysInOrder(rest);
      hide Ascending, TextLe;
      AscendingCons(Least(keys), SortedKeys(rest));
    }
  }

  // ---- Printing ----

  function Print(v: Json): string
    decreases v, 1, 0
  {
    match v
    case Null => "null"
    case Bool(b) => if b then "true" else "false"
    case Int(n) => if n < 0 then "-" + Numeral(-n) else Numeral(n)
    case Str(s) => Quote(s)
    case Arr(elements) => "[" + PrintElements(v, elements) + "]"
    case Obj(members) => "{" + PrintMembers(v, SortedKeys(members.Keys)) + "}"
  }

  function PrintElements(v: Json, elements: seq<Json>): string
    requires forall i :: 0 <= i < |elements| ==> elements[i] < v
    decreases v, 0, |elements|
  {
    if elements == [] then ""
    else Print(elements[0]) + (if |elements| == 1 then "" else "," + PrintElements(v, elements[1..]))
  }

  function PrintMembers(v: Json, keys: seq<string>): string
    requires v.Obj? && forall k <- keys :: k in v.members
    decreases v, 0, |keys|
  {
    if keys == [] then ""
    else Quote(keys[0]) + ":" + Print(v.members[keys[0]])
         + (if |keys| == 1 then "" else "," + PrintMembers(v, keys[1..]))
  }

  // ---- Parsing ----

  function ParseNumber(s: string): Option<(nat, string)> {
    var n := DigitRun(s);
    if n == 0 then None else Some((Value(s[..n]), s[n..]))
  }

  function Negate(n: nat): int {
    var k: int := n;
    -k
  }

  function ParseValue(s: string): (r: Option<(Json, string)>)
    ensures r.Some? ==> |r.value.1| < |s|
    decreases |s|, 1
  {
    if s == "" then None
    else if s[0] == 'n' then (if "null" <= s then Some((Null, s[4..])) else None)
    else if s[0] == 't' then (if "true" <= s then Some((Bool(true), s[4..])) else None)
    else if s[0] == 'f' then (if "false" <= s then Some((Bool(false), s[5..])) else None)
    else if s[0] == '"' then
      var t := ReadChars(s[1..]);
      if t.None? then None else Some((Str(t.value.0), t.value.1))
    else if s[0] == '-' then
      var n := ParseNumber(s[1..]);
      if n.None? then None else Some((Int(Negate(n.value.0)), n.value.1))
    else if IsDigit(s[0]) then
      var n := ParseNumber(s);
      Some((Int(n.value.0), n.value.1))
    else if s[0] == '[' then
      if |s| > 1 && s[1] == ']' then Some((Arr([]), s[2..]))
      else
        var vs := ParseElements(s[1..]);
        if vs.None? then None else Some((Arr(vs.value.0), vs.value.1))
    else if s[0] == '{' then
      if |s| > 1 && s[1] == '}' then Some((Obj(map[]), s[2..]))
      else
        var ms := ParseMembers(s[1..]);
        if ms.None? then None else Some((Obj(FromPairs(ms.value.0)), ms.value.1))
    else None
  }

  function ParseElements(s: string): (r: Option<(seq<Json>, string)>)
    ensures r.Some? ==> |r.value.1| < |s|
    decreases |s|, 2
  {
    var v := ParseValue(s);
    if v.None? || v.value.1 == "" then None
    else if v.value.1[0] == ']' then Some(([v.value.0], v.value.1[1..]))
    else if v.value.1[0] != ',' then None
    else
      var vs := ParseElements(v.value.1[1..]);
      if vs.None? then None else Some(([v.value.0] + vs.value.0, vs.value.1))
  }

  function ParseMembers(s: string): (r: Option<(seq<(string, Json)>, string)>)
    ensures r.Some? ==> |r.value.1| < |s|
    decreases |s|, 2
  {
    if s == "" || s[0] != '"' then None
    else
      var k := ReadChars(s[1..]);
      if k.None? || k.value.1 == "" || k.value.1[0] != ':' then None
      else
        var v := ParseValue(k.value.1[1..]);
        if v.None? || v.value.1 == "" then None
        else if v.value.1[0] == '}' then Some(([(k.value.0, v.value.0)], v.value.1[1..]))
        else if v.value.1[0] != ',' then None
        else
          var ms := ParseMembers(v.value.1[1..]);
          if ms.None? then None else Some(([(k.value.0, v.value.0)] + ms.value.0, ms.value.1))
  }

  function FromPairs(pairs: seq<(string, Json)>): map<string, Json> {
    if pairs == [] then map[] else map[pairs[0].0 := pairs[0].1] + FromPairs(pairs[1..])
  }

  // ---- The round trip ----

  lemma NumberReads(n: nat, rest: string)
    requires Stops(rest)
    ensures ParseNumber(Numeral(n) + rest) == Some((n, rest))
  {
    hide Numeral, Value;
    var s := Numeral(n) + rest;
    DigitRunOf(Numeral(n), rest);
    assert s[..|Numeral(n)|] == Numeral(n) && s[|Numeral(n)|..] == rest;
  }

  ghost function Pairs(members: map<string, Json>, keys: seq<string>): seq<(string, Json)>
    requires forall k <- keys :: k in members
  {
    if keys == [] then [] else [(keys[0], members[keys[0]])] + Pairs(members, keys[1..])
  }

  lemma {:induction false} FromPairsOf(members: map<string, Json>, keys: seq<string>)
    requires forall k <- keys :: k in members
    ensures var m := FromPairs(Pairs(members, keys));
            (forall k :: k in m <==> k in keys) && forall k <- keys :: m[k] == members[k]
  {
    if keys != [] {
      FromPairsOf(members, keys[1..]);
      assert keys == [keys[0]] + keys[1..];
      var rest := FromPairs(Pairs(members, keys[1..]));
      assert FromPairs(Pairs(members, keys)) == map[keys[0] := members[keys[0]]] + rest;
    }
  }

  /** The first character of a printed value tells what kind it is. */
  lemma PrintHead(v: Json)
    ensures Print(v) != ""
    ensures var c := Print(v)[0];
            match v
            case Null => c == 'n'
            case Bool(b) => c == if b then 't' else 'f'
            case Int(n) => if n < 0 then c == '-' else IsDigit(c)
            case Str(_) => c == '"'
            case Arr(_) => c == '['
            case Obj(_) => c == '{'
  {
  }

  lemma IntReads(n: int, rest: string)
    requires Stops(rest)
    ensures ParseValue(Print(Int(n)) + rest) == Some((Int(n), rest))
  {
    hide ReadChars, EscapeAll, DigitRun, ParseNumber, Numeral, ParseElements, ParseMembers;
    var s := Print(Int(n)) + rest;
    PrintHead(Int(n));
    NumberReads(if n < 0 then -n else n, rest);
    assert n < 0 ==> s[1..] == Numeral(-n) + rest;
    assert s[0] == Print(Int(n))[0];
  }

  lemma StringReads(t: string, rest: string)
    ensures ParseValue(Print(Str(t)) + rest) == Some((Str(t), rest))
  {
    hide ReadChars, EscapeAll, ParseNumber, ParseElements, ParseMembers;
    var s := Print(Str(t)) + rest;
    assert s[1..] == EscapeAll(t) + "\"" + rest;
    EscapesRead(t, rest);
  }

  lemma LiteralReads(v: Json, rest: string)
    requires v.Null? || v.Bool?
    ensures ParseValue(Print(v) + rest) == Some((v, rest))
  {
    hide ReadChars, EscapeAll, ParseNumber, ParseElements, ParseMembers;
    assert (Print(v) + rest)[|Print(v)|..] == rest;
  }

  lemma ArrayReads(v: Json, rest: string)
    requires v.Arr?
    requires v.elements != [] ==>
      ParseElements(PrintElements(v, v.elements) + "]" + rest) == Some((v.elements, rest))
    ensures ParseValue(Print(v) + rest) == Some((v, rest))
  {
    hide ReadChars, EscapeAll, ParseElements, ParseMembers, ParseNumber, Numeral;
    var s := Print(v) + rest;
    if v.elements == [] {
      assert s == "[]" + rest && s[2..] == rest;
    } else {
      var inner := PrintElements(v, v.elements);
      assert s == "[" + (inner + "]" + rest) && s[1..] == inner + "]" + rest;
      PrintHead(v.elements[0]);
      assert inner[0] == Print(v.elements[0])[0] && s[1] == inner[0];
    }
  }

  /** The members in key order rebuild the object. */
  lemma MembersInOrder(members: map<string, Json>)
    ensures var keys := SortedKeys(members.Keys);
            FromPairs(Pairs(members, keys)) == members && (keys == [] ==> members == map[])
  {
    hide SortedKeys, FromPairs, Pairs;
    var keys := SortedKeys(members.Keys);
    FromPairsOf(members, keys);
    var m := FromPairs(Pairs(members, keys));
    assert forall k :: k in m <==> k in members;
    assert m == members;
    assert keys == [] ==> |members.Keys| == 0;
  }

  lemma ObjectReads(v: Json, rest: string)
    requires v.Obj?
    requires var keys := SortedKeys(v.members.Keys);
             keys != [] ==> ParseMembers(PrintMembers(v, keys) + "}" + rest) == Some((Pairs(v.members, keys), rest))
    ensures ParseValue(Print(v) + rest) == Some((v, rest))
  {
    hide ReadChars, EscapeAll, ParseElements, ParseMembers, ParseNumber, Numeral, SortedKeys, FromPairs, Pairs;
    MembersInOrder(v.members);
    var keys := SortedKeys(v.members.Keys);
    var inner := PrintMembers(v, keys);
    MembersHead(v, keys);
    hide PrintMembers;
    assert Print(v) == "{" + inner + "}";
    hide Print;
    var s := Print(v) + rest;
    if keys == [] {
      assert s == "{}" + rest && s[2..] == rest;
    } else {
      assert s == "{" + (inner + "}" + rest) && s[1..] == inner + "}" + rest;
      assert s[1] == inner[0];
    }
  }

  lemma MembersHead(v: Json, keys: seq<string>)
    requires v.Obj? && forall k <- keys :: k in v.members
    ensures if keys == [] then PrintMembers(v, keys) == "" else PrintMembers(v, keys) != "" && PrintMembers(v, keys)[0] == '"'
  {
  }

  /** Parsing undoes printing, whatever follows the value. */
  lemma {:induction false} ParsePrint(v: Json, rest: string)
    requires Stops(rest)
    ensures ParseValue(Print(v) + rest) == Some((v, rest))
    decreases v, 1, 0
  {
    hide Print, ParseValue;
    if v.Arr? {
      if v.elements != [] { ElementsRead(v, v.elements, rest); }
      ArrayReads(v, rest);
    } else if v.Obj? {
      var keys := SortedKeys(v.members.Keys);
      if keys != [] { MembersRead(v, keys, rest); }
      ObjectReads(v, rest);
    } else if v.Str? {
      StringReads(v.s, rest);
    } else if v.Int? {
      IntReads(v.n, rest);
    } else {
      LiteralReads(v, rest);
    }
  }

  lemma {:induction false} ElementsRead(v: Json, elements: seq<Json>, rest: string)
    requires elements != [] && forall i :: 0 <= i < |elements| ==> elements[i] < v
    ensures ParseElements(PrintElements(v, elements) + "]" + rest) == Some((elements, rest))
    decreases v, 0, |elements|
  {
    hide Print, ParseValue;
    var s := PrintElements(v, elements) + "]" + rest;
    if |elements| == 1 {
      assert s == Print(elements[0]) + ("]" + rest);
      ParsePrint(elements[0], "]" + rest);
      assert elements == [elements[0]];
    } else {
      var tail := PrintElements(v, elements[1..]) + "]" + rest;
      assert s == Print(elements[0]) + ("," + tail);
      ParsePrint(elements[0], "," + tail);
      assert ("," + tail)[1..] == tail;
      ElementsRead(v, elements[1..], rest);
      assert elements == [elements[0]] + elements[1..];
    }
  }

  lemma {:induction false} MembersRead(v: Json, keys: seq<string>, rest: string)
    requires v.Obj? && keys != [] && forall k <- keys :: k in v.members
    ensures ParseMembers(PrintMembers(v, keys) + "}" + rest) == Some((Pairs(v.members, keys), rest))
    decreases v, 0, |keys|
  {
    hide Print, ParseValue, ReadChars, EscapeAll;
    var k, e := keys[0], v.members[keys[0]];
    var s := PrintMembers(v, keys) + "}" + rest;
    var after := if |keys| == 1 then "}" + rest else "," + PrintMembers(v, keys[1..]) + "}" + rest;
    assert s == Quote(k) + ":" + Print(e) + after;
    assert s[1..] == EscapeAll(k) + "\"" + (":" + Print(e) + after);
    assert s[0] == '"';
    hide Quote;
    EscapesRead(k, ":" + Print(e) + after);
    assert (":" + Print(e) + after)[1..] == Print(e) + after;
    ParsePrint(e, after);
    if |keys| > 1 {
      assert after[1..] == PrintMembers(v, keys[1..]) + "}" + rest;
      MembersRead(v, keys[1..], rest);
      assert Pairs(v.members, keys) == [(k, e)] + Pairs(v.members, keys[1..]);
    } else {
      assert after[1..] == rest;
      assert keys[1..] == [] && Pairs(v.members, keys) == [(k, e)];
    }
  }

  /** Different values print differently. */
  lemma PrintInjective(a: Json, b: Json)
    requires Print(a) == Print(b)
    ensures a == b
  {
    ParsePrint(a, "");
    ParsePrint(b, "");
  }

  /** The members of an object stand in its text in the order of their keys. */
  lemma MembersByKey(members: map<string, Json>)
    requires members != map[]
    ensures var r := ParseMembers(Print(Obj(members))[1..]);
            && r.Some? && r.value.1 == ""
            && FromPairs(r.value.0) == members
            && forall i, j :: 0 <= i < j < |r.value.0| ==> TextBefore(r.value.0[i].0, r.value.0[j].0)
  {
    hide ParseMembers, TextBefore, SortedKeys, FromPairs, PrintMembers;
    var v, keys := Obj(members), SortedKeys(members.Keys);
    MembersInOrder(members);
    InsideOfObject(v);
    hide Print;
    MembersRead(v, keys, "");
    KeysInOrder(members.Keys);
    PairsAt(members, keys);
  }

  lemma InsideOfObject(v: Json)
    requires v.Obj?
    ensures Print(v) != "" && Print(v)[1..] == PrintMembers(v, SortedKeys(v.members.Keys)) + "}" + ""
  {
    hide PrintMembers, SortedKeys, PrintElements;
    Braced(PrintMembers(v, SortedKeys(v.members.Keys)));
  }

  lemma Braced(inner: string)
    ensures ("{" + inner + "}")[1..] == inner + "}" + ""
  {
  }

  lemma {:induction false} PairsAt(members: map<string, Json>, keys: seq<string>)
    requires forall k <- keys :: k in members
    ensures var r := Pairs(members, keys); |r| == |keys| && forall i :: 0 <= i < |keys| ==> r[i].0 == keys[i]
  {
    if keys != [] { PairsAt(members, keys[1..]); }
  }

  /** An integer is its decimal digits without a leading zero, after a minus sign exactly when it is negative. */
  lemma IntegersPlain(n: int)
    ensures var sign, size: nat := if n < 0 then "-" else "", if n < 0 then -n else n;
            exists digits :: Print(Int(n)) == sign + digits && AllDigits(digits) && digits != ""
                             && Value(digits) == size && (digits[0] == '0' ==> digits == "0")
  {
    var size: nat := if n < 0 then -n else n;
    var digits := Numeral(size);
    assert size == 0 ==> digits == [digits[0]];
    assert Print(Int(n)) == (if n < 0 then "-" else "") + digits;
  }
}

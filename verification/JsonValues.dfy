/**
 JSON values (desktop/src/core/json/json.hpp), the bytes their texts stand for, and how deep and how large they
 are by the parser's count.

 A character of a model string stands for one byte, so it has a code below 256.
 */
module JsonValues {
  import opened Utf8
  import opened Ordering
  import opened Doubles

  datatype Json =
    | Null
    | Bool(b: bool)
    | Num(n: real)
    | Str(s: string)
    | Arr(items: seq<Json>)
    | Obj(members: map<string, Json>)

  // ----- Texts and bytes -----

  function TextOf(m: Bytes): string {
    seq(|m|, i requires 0 <= i < |m| => m[i] as char)
  }

  function BytesOf(s: string): Bytes {
    seq(|s|, i requires 0 <= i < |s| => if s[i] as int < 256 then s[i] as int else 0)
  }

  /** Well-formed text: bytes that are UTF-8. */
  ghost predicate IsText(s: string) {
    (forall i | 0 <= i < |s| :: s[i] as int < 256) && IsUtf8(BytesOf(s))
  }

  lemma BytesOfText(m: Bytes)
    ensures BytesOf(TextOf(m)) == m
    ensures IsUtf8(m) ==> IsText(TextOf(m))
  {
  }

  lemma TextOfBytes(s: string)
    requires IsText(s)
    ensures TextOf(BytesOf(s)) == s
  {
  }

  // ----- What holds of every value in a value -----

  /** Every string and every member name is well-formed text. */
  ghost predicate AllTexts(v: Json) {
    match v
    case Str(s) => IsText(s)
    case Arr(items) => forall i | 0 <= i < |items| :: AllTexts(items[i])
    case Obj(members) => forall key | key in members :: IsText(key) && AllTexts(members[key])
    case _ => true
  }

  /** Every number is a double, as in a document that was parsed. */
  ghost predicate AllDoubles(v: Json) {
    match v
    case Num(n) => IsDouble(n)
    case Arr(items) => forall i | 0 <= i < |items| :: AllDoubles(items[i])
    case Obj(members) => forall key | key in members :: AllDoubles(members[key])
    case _ => true
  }

  /** No value is nested more than `depth` levels below the outermost one. */
  ghost predicate FitsDepth(v: Json, depth: int) {
    && depth >= 0
    && match v
       case Arr(items) => forall i | 0 <= i < |items| :: FitsDepth(items[i], depth - 1)
       case Obj(members) => forall key | key in members :: FitsDepth(members[key], depth - 1)
       case _ => true
  }

  // ----- Members in order -----

  /** The names of an object's members in the order std::map has them. */
  ghost function SortedKeys(names: set<string>): (keys: seq<string>)
    ensures Lists(keys, names)
  {
    if names == {} then []
    else
      var first := Least(names);
      FirstOfList(first, SortedKeys(names - {first}), names);
      [first] + SortedKeys(names - {first})
  }

  ghost predicate IsLeast(first: string, names: set<string>) {
    first in names && forall k | k in names :: k == first || Less(first, k)
  }

  ghost function Least(names: set<string>): (first: string)
    requires names != {}
    ensures IsLeast(first, names)
  {
    assert exists k :: IsLeast(k, names) by { var k := LeastExists(names); }
    var first :| IsLeast(first, names);
    first
  }

  lemma {:induction false} LeastExists(names: set<string>) returns (first: string)
    requires names != {}
    ensures IsLeast(first, names)
  {
    var k :| k in names;
    var rest := names - {k};
    if rest == {} {
      assert names == {k};
      first := k;
    } else {
      first := LeastExists(rest);
      LessIsStrict(k, first);
      if Less(k, first) {
        LessThanAll(k, first, rest);
        first := k;
      }
    }
  }

  lemma LessThanAll(k: string, first: string, names: set<string>)
    requires Less(k, first) && IsLeast(first, names)
    ensures forall l | l in names :: Less(k, l)
  {
    forall l | l in names ensures Less(k, l) {
      if l != first { LessChains(k, first, l); }
    }
  }

  lemma FirstOfList(first: string, rest: seq<string>, names: set<string>)
    requires IsLeast(first, names) && Lists(rest, names - {first})
    ensures Lists([first] + rest, names)
  {
    forall i | 0 <= i < |rest| ensures Less(first, rest[i]) {
      assert rest[i] in rest;
    }
  }

  ghost predicate HasNames(v: Json, keys: seq<string>) {
    v.Obj? && forall k | k in keys :: k in v.members
  }

  // ----- Size -----

  /** How many values there are, as the parser counts them: member names are not. */
  ghost function Elements(v: Json): nat
    decreases v, 1
  {
    match v
    case Arr(items) => 1 + ItemElements(items)
    case Obj(members) => 1 + MemberElements(v, SortedKeys(members.Keys))
    case _ => 1
  }

  ghost function ItemElements(items: seq<Json>): nat
    decreases items, 0
  {
    if items == [] then 0 else Elements(items[0]) + ItemElements(items[1..])
  }

  ghost function MemberElements(v: Json, keys: seq<string>): nat
    requires HasNames(v, keys)
    decreases v, 0, |keys|
  {
    if keys == [] then 0 else Elements(v.members[keys[0]]) + MemberElements(v, keys[1..])
  }
}

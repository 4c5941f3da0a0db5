/** Snapshot files: saving a keyspace and loading it back. Each character stands for one byte. */
module Snapshots {
  import opened Options
  import opened Resp
  import opened Handlers

  const MAGIC: string := "BLAZEKV1"
  const MAX_STRING := 0x4000_0000
  const U32 := 0x1_0000_0000
  const U64 := 0x1_0000_0000_0000_0000

  // ---------------------------------------------------------------------------
  // What is saved
  // ---------------------------------------------------------------------------

  /** An element of a container, as the container enumerates it. */
  datatype Item = One(name: string) | Two(name: string, text: string) | Scored(name: string, bits: nat)

  /** A value as it is written: its tag, and its text or its elements in the order of enumeration. */
  datatype Stored = Text(s: string, hll: bool) | Items(shape: Shape, items: seq<Item>)

  datatype Shape = ListShape | HashShape | SetShape | ZSetShape

  datatype Entry = Entry(key: string, deadline: nat, value: Stored)

  predicate ItemFits(shape: Shape, i: Item) {
    match shape
    case ListShape => i.One?
    case SetShape => i.One?
    case HashShape => i.Two?
    case ZSetShape => i.Scored?
  }

  function Fields(items: seq<Item>): map<string, string>
    requires forall i :: 0 <= i < |items| ==> items[i].Two?
  {
    if items == [] then map[]
    else Fields(items[..|items| - 1])[items[|items| - 1].name := items[|items| - 1].text]
  }

  function Scores(items: seq<Item>): map<string, int>
    requires forall i :: 0 <= i < |items| ==> items[i].Scored?
  {
    if items == [] then map[]
    else Scores(items[..|items| - 1])[items[|items| - 1].name := items[|items| - 1].bits]
  }

  function Members(items: seq<Item>): set<string> {
    if items == [] then {} else Members(items[..|items| - 1]) + {items[|items| - 1].name}
  }

  function Names(items: seq<Item>): seq<string> {
    if items == [] then [] else Names(items[..|items| - 1]) + [items[|items| - 1].name]
  }

  predicate AllFit(shape: Shape, items: seq<Item>) {
    forall i :: 0 <= i < |items| ==> ItemFits(shape, items[i])
  }

  /** The value that inserting the elements one by one builds. */
  function Build(shape: Shape, items: seq<Item>): Obj
    requires AllFit(shape, items)
  {
    match shape
    case ListShape => List(Names(items))
    case SetShape => Obj.Set(Members(items))
    case HashShape => Obj.Hash(Fields(items))
    case ZSetShape => Obj.ZSet(Scores(items))
  }

  /** A HyperLogLog comes back as a plain string. */
  function Meaning(v: Stored): Obj
    requires v.Items? ==> AllFit(v.shape, v.items)
  {
    match v
    case Text(s, _) => Str(s)
    case Items(shape, items) => Build(shape, items)
  }

  // ---------------------------------------------------------------------------
  // Writing
  // ---------------------------------------------------------------------------

  function ToBytes(v: nat, n: nat): (s: string)
    ensures |s| == n
  {
    if n == 0 then [] else [(v % 256) as char] + ToBytes(v / 256, n - 1)
  }

  function PutString(s: string): string {
    ToBytes(|s| % U32, 4) + s
  }

  function PutItem(i: Item): string {
    match i
    case One(name) => PutString(name)
    case Two(name, text) => PutString(name) + PutString(text)
    case Scored(name, bits) => PutString(name) + ToBytes(bits, 8)
  }

  function PutItems(items: seq<Item>): string {
    if items == [] then [] else PutItem(items[0]) + PutItems(items[1..])
  }

  function Tag(v: Stored): nat {
    match v
    case Text(_, hll) => if hll then 5 else 0
    case Items(ListShape, _) => 1
    case Items(HashShape, _) => 2
    case Items(SetShape, _) => 3
    case Items(ZSetShape, _) => 4
  }

  function PutBody(v: Stored): string {
    match v
    case Text(s, _) => PutString(s)
    case Items(_, items) => ToBytes(|items| % U32, 4) + PutItems(items)
  }

  function PutEntry(e: Entry): string {
    ToBytes(Tag(e.value), 1) + PutString(e.key) + ToBytes(e.deadline, 8) + PutBody(e.value)
  }

  function PutEntries(entries: seq<Entry>): string {
    if entries == [] then [] else PutEntry(entries[0]) + PutEntries(entries[1..])
  }

  function Saved(entries: seq<Entry>): string {
    MAGIC + ToBytes(|entries|, 8) + PutEntries(entries)
  }

  /** Numbers are written with the lowest byte first. */
  lemma LowestFirst(low: nat, high: nat, n: nat)
    requires low < 256
    ensures ToBytes(256 * high + low, n + 1) == [low as char] + ToBytes(high, n) && ToBytes(0, 0) == []
  {
  }

  /** A number below 256, in eight bytes or in four. */
  function Eight(v: nat): string
    requires v < 256
  {
    [v as char] + "\0\0\0\0\0\0\0"
  }

  function Four(v: nat): string
    requires v < 256
  {
    [v as char] + "\0\0\0"
  }

  lemma SmallNumbers(v: nat)
    requires v < 256
    ensures ToBytes(v, 1) == [v as char] && ToBytes(v, 4) == Four(v) && ToBytes(v, 8) == Eight(v)
  {
    assert ToBytes(0, 3) == "\0\0\0";
    assert ToBytes(0, 7) == "\0\0\0\0\0\0\0" by { assert ToBytes(0, 5) == "\0\0\0\0\0"; }
  }

  /** A file with one key, spelled out: a string that expires at 9 ms. */
  lemma KnownFiles()
    ensures Saved([Entry("k", 9, Text("vw", false))])
      == "BLAZEKV1" + Eight(1) + "\0" + Four(1) + "k" + Eight(9) + Four(2) + "vw"
  {
    hide ToBytes, Four, Eight;
    SmallNumbers(0);
    SmallNumbers(1);
    SmallNumbers(2);
    SmallNumbers(9);
  }

  /** An entry of each other kind, spelled out, with one element. */
  lemma KnownEntries()
    ensures PutEntry(Entry("k", 0, Items(ListShape, [One("a")])))
      == [1 as char] + Four(1) + "k" + Eight(0) + Four(1) + Four(1) + "a"
    ensures PutEntry(Entry("k", 0, Items(HashShape, [Two("f", "v")])))
      == [2 as char] + Four(1) + "k" + Eight(0) + Four(1) + Four(1) + "f" + Four(1) + "v"
    ensures PutEntry(Entry("k", 0, Items(SetShape, [One("a")])))
      == [3 as char] + Four(1) + "k" + Eight(0) + Four(1) + Four(1) + "a"
    ensures PutEntry(Entry("k", 0, Items(ZSetShape, [Scored("a", 7)])))
      == [4 as char] + Four(1) + "k" + Eight(0) + Four(1) + Four(1) + "a" + Eight(7)
    ensures PutEntry(Entry("k", 0, Text("", true))) == [5 as char] + Four(1) + "k" + Eight(0) + Four(0)
  {
    hide ToBytes, Four, Eight;
    SmallNumbers(0);
    SmallNumbers(1);
    SmallNumbers(2);
    SmallNumbers(3);
    SmallNumbers(4);
    SmallNumbers(5);
    SmallNumbers(7);
  }

  // ---------------------------------------------------------------------------
  // Reading
  // ---------------------------------------------------------------------------

  /** A value and the position after it, or failure: too few bytes, or bytes no file of ours holds. */
  datatype Got<T> = Fail | Got(value: T, next: nat)

  function FromBytes(s: string): nat {
    if s == [] then 0 else s[0] as int + 256 * FromBytes(s[1..])
  }

  function TakeBytes(data: string, pos: nat, n: nat): Got<string> {
    if pos + n <= |data| then Got(data[pos..pos + n], pos + n) else Fail
  }

  function TakeNumber(data: string, pos: nat, n: nat): Got<nat> {
    match TakeBytes(data, pos, n)
    case Fail => Fail
    case Got(s, next) => Got(FromBytes(s), next)
  }

  function TakeString(data: string, pos: nat): Got<string> {
    match TakeNumber(data, pos, 4)
    case Fail => Fail
    case Got(n, next) => if n > MAX_STRING then Fail else TakeBytes(data, next, n)
  }

  function TakeItem(data: string, pos: nat, shape: Shape): (r: Got<Item>)
    ensures r.Got? ==> ItemFits(shape, r.value)
  {
    match TakeString(data, pos)
    case Fail => Fail
    case Got(name, next) =>
      match shape {
        case ListShape => Got(One(name), next)
        case SetShape => Got(One(name), next)
        case HashShape =>
          match TakeString(data, next) {
            case Fail => Fail
            case Got(text, after) => Got(Two(name, text), after)
          }
        case ZSetShape =>
          match TakeNumber(data, next, 8) {
            case Fail => Fail
            case Got(bits, after) => Got(Scored(name, bits), after)
          }
      }
  }

  /** `n` more elements, after those in `read`. */
  function TakeItems(data: string, pos: nat, shape: Shape, n: nat, read: seq<Item>): (r: Got<seq<Item>>)
    requires AllFit(shape, read)
    ensures r.Got? ==> AllFit(shape, r.value)
    decreases n
  {
    if n == 0 then Got(read, pos)
    else
      match TakeItem(data, pos, shape)
      case Fail => Fail
      case Got(i, next) => TakeItems(data, next, shape, n - 1, read + [i])
  }

  function ShapeOf(tag: nat): Option<Shape> {
    if tag == 1 then Some(ListShape)
    else if tag == 2 then Some(HashShape)
    else if tag == 3 then Some(SetShape)
    else if tag == 4 then Some(ZSetShape)
    else None
  }

  function TakeBody(data: string, pos: nat, tag: nat): Got<Obj> {
    if tag == 0 || tag == 5 then
      match TakeString(data, pos)
      case Fail => Fail
      case Got(s, next) => Got(Str(s), next)
    else if ShapeOf(tag) == None then Fail
    else
      match TakeNumber(data, pos, 4)
      case Fail => Fail
      case Got(n, next) =>
        match TakeItems(data, next, ShapeOf(tag).value, n, [])
        case Fail => Fail
        case Got(items, after) => Got(Build(ShapeOf(tag).value, items), after)
  }

  /** A key's value and deadline, if it has one. */
  datatype Cell = Cell(value: Obj, deadline: Option<nat>)

  datatype Loaded = Loaded(key: string, deadline: nat, value: Obj)

  function TakeEntry(data: string, pos: nat): Got<Loaded> {
    match TakeNumber(data, pos, 1)
    case Fail => Fail
    case Got(tag, p1) =>
      match TakeString(data, p1)
      case Fail => Fail
      case Got(key, p2) =>
        match TakeNumber(data, p2, 8)
        case Fail => Fail
        case Got(deadline, p3) =>
          match TakeBody(data, p3, tag)
          case Fail => Fail
          case Got(value, p4) => Got(Loaded(key, deadline, value), p4)
  }

  function Keep(ks: map<string, Cell>, l: Loaded, now: nat): map<string, Cell> {
    if l.deadline != 0 && l.deadline <= now then ks
    else ks[l.key := Cell(l.value, if l.deadline != 0 then Some(l.deadline) else None)]
  }

  function TakeEntries(data: string, pos: nat, count: nat, now: nat, ks: map<string, Cell>): Got<map<string, Cell>>
    decreases count
  {
    if count == 0 then Got(ks, pos)
    else
      match TakeEntry(data, pos)
      case Fail => Fail
      case Got(l, next) => TakeEntries(data, next, count - 1, now, Keep(ks, l, now))
  }

  function Load(data: string, now: nat): Got<map<string, Cell>> {
    match TakeBytes(data, 0, |MAGIC|)
    case Fail => Fail
    case Got(magic, p0) =>
      if magic != MAGIC then Fail
      else
        match TakeNumber(data, p0, 8)
        case Fail => Fail
        case Got(count, p1) => TakeEntries(data, p1, count, now, map[])
  }

  // ---------------------------------------------------------------------------
  // Reading what was written
  // ---------------------------------------------------------------------------

  function Pow256(n: nat): nat {
    if n == 0 then 1 else 256 * Pow256(n - 1)
  }

  lemma PowFacts()
    ensures Pow256(1) == 256 && Pow256(4) == U32 && Pow256(8) == U64
  {
    assert Pow256(2) == 65536 && Pow256(3) == 256 * 65536;
    assert Pow256(4) == 65536 * 65536 && Pow256(5) == 256 * Pow256(4) && Pow256(6) == 65536 * Pow256(4);
    assert Pow256(7) == 256 * Pow256(6);
  }

  lemma {:induction false} BytesRead(v: nat, n: nat)
    requires v < Pow256(n)
    ensures FromBytes(ToBytes(v, n)) == v
  {
    if n > 0 {
      BytesRead(v / 256, n - 1);
      assert ToBytes(v, n)[1..] == ToBytes(v / 256, n - 1);
    }
  }

  lemma NumberRead(data: string, pos: nat, v: nat, n: nat)
    requires Holds(data, pos, ToBytes(v, n)) && v < Pow256(n)
    ensures TakeNumber(data, pos, n) == Got(v, pos + n)
  {
    BytesRead(v, n);
  }

  lemma StringRead(data: string, pos: nat, s: string)
    requires Holds(data, pos, PutString(s)) && |s| <= MAX_STRING
    ensures TakeString(data, pos) == Got(s, pos + |PutString(s)|)
  {
    PowFacts();
    hide ToBytes;
    HoldsSplit(data, pos, ToBytes(|s| % U32, 4), s);
    NumberRead(data, pos, |s|, 4);
  }

  predicate ItemSized(i: Item) {
    |i.name| <= MAX_STRING && (i.Two? ==> |i.text| <= MAX_STRING) && (i.Scored? ==> i.bits < U64)
  }

  lemma ItemRead(data: string, pos: nat, shape: Shape, i: Item)
    requires Holds(data, pos, PutItem(i)) && ItemFits(shape, i) && ItemSized(i)
    ensures TakeItem(data, pos, shape) == Got(i, pos + |PutItem(i)|)
  {
    hide TakeString, TakeNumber, PutString, ToBytes;
    match i
    case One(name) =>
      StringRead(data, pos, name);
    case Two(name, text) =>
      HoldsSplit(data, pos, PutString(name), PutString(text));
      StringRead(data, pos, name);
      StringRead(data, pos + |PutString(name)|, text);
    case Scored(name, bits) =>
      HoldsSplit(data, pos, PutString(name), ToBytes(bits, 8));
      StringRead(data, pos, name);
      PowFacts();
      NumberRead(data, pos + |PutString(name)|, bits, 8);
  }

  predicate AllSized(items: seq<Item>) {
    forall i :: 0 <= i < |items| ==> ItemSized(items[i])
  }

  lemma {:induction false} ItemsRead(data: string, pos: nat, shape: Shape, items: seq<Item>, read: seq<Item>)
    requires Holds(data, pos, PutItems(items)) && AllFit(shape, items) && AllSized(items) && AllFit(shape, read)
    ensures TakeItems(data, pos, shape, |items|, read) == Got(read + items, pos + |PutItems(items)|)
    decreases |items|
  {
    hide TakeItem, PutItem, Holds, ItemFits, ItemSized;
    if items == [] {
      assert read + items == read;
    } else {
      var i, rest := items[0], items[1..];
      HoldsSplit(data, pos, PutItem(i), PutItems(rest));
      ItemRead(data, pos, shape, i);
      ItemsRead(data, pos + |PutItem(i)|, shape, rest, read + [i]);
      assert read + [i] + rest == read + items;
    }
  }

  /** Sizes the format can carry. */
  predicate ValueSized(v: Stored) {
    match v
    case Text(s, _) => |s| <= MAX_STRING
    case Items(shape, items) => |items| < U32 && AllFit(shape, items) && AllSized(items)
  }

  predicate EntrySized(e: Entry) {
    |e.key| <= MAX_STRING && e.deadline < U64 && ValueSized(e.value)
  }

  lemma BodyRead(data: string, pos: nat, v: Stored)
    requires Holds(data, pos, PutBody(v)) && ValueSized(v)
    ensures TakeBody(data, pos, Tag(v)) == Got(Meaning(v), pos + |PutBody(v)|)
  {
    hide TakeString, PutString, TakeNumber, ToBytes, TakeItems, PutItems, Build;
    match v
    case Text(s, _) =>
      StringRead(data, pos, s);
    case Items(shape, items) =>
      HoldsSplit(data, pos, ToBytes(|items| % U32, 4), PutItems(items));
      PowFacts();
      NumberRead(data, pos, |items|, 4);
      ItemsRead(data, pos + 4, shape, items, []);
      assert [] + items == items;
  }

  lemma EntryRead(data: string, pos: nat, e: Entry)
    requires Holds(data, pos, PutEntry(e)) && EntrySized(e)
    ensures TakeEntry(data, pos) == Got(Loaded(e.key, e.deadline, Meaning(e.value)), pos + |PutEntry(e)|)
  {
    hide TakeString, PutString, TakeNumber, ToBytes, TakeBody, PutBody, Meaning, ValueSized, Holds;
    var a, b, c, d := ToBytes(Tag(e.value), 1), PutString(e.key), ToBytes(e.deadline, 8), PutBody(e.value);
    HoldsSplit(data, pos, a + b + c, d);
    HoldsSplit(data, pos, a + b, c);
    HoldsSplit(data, pos, a, b);
    PowFacts();
    NumberRead(data, pos, Tag(e.value), 1);
    StringRead(data, pos + 1, e.key);
    NumberRead(data, pos + 1 + |b|, e.deadline, 8);
    BodyRead(data, pos + 1 + |b| + 8, e.value);
  }

  /** The keyspace loading should give: each entry that is not expired, a zero deadline meaning none. */
  function Kept(entries: seq<Entry>, now: nat, ks: map<string, Cell>): map<string, Cell>
    requires AllEntriesSized(entries)
  {
    if entries == [] then ks
    else
      assert EntrySized(entries[0]);
      Kept(entries[1..], now, Keep(ks, Loaded(entries[0].key, entries[0].deadline, Meaning(entries[0].value)), now))
  }

  predicate AllEntriesSized(entries: seq<Entry>) {
    forall i :: 0 <= i < |entries| ==> EntrySized(entries[i])
  }

  lemma {:induction false} EntriesRead(data: string, pos: nat, entries: seq<Entry>, now: nat, ks: map<string, Cell>)
    requires Holds(data, pos, PutEntries(entries)) && AllEntriesSized(entries)
    ensures TakeEntries(data, pos, |entries|, now, ks) == Got(Kept(entries, now, ks), pos + |PutEntries(entries)|)
    decreases |entries|
  {
    hide TakeEntry, PutEntry, Keep, Meaning, Holds, AllSized;
    if entries != [] {
      var e, rest := entries[0], entries[1..];
      assert EntrySized(e);
      HoldsSplit(data, pos, PutEntry(e), PutEntries(rest));
      EntryRead(data, pos, e);
      EntriesRead(data, pos + |PutEntry(e)|, rest, now, Keep(ks, Loaded(e.key, e.deadline, Meaning(e.value)), now));
    }
  }

  /** Loading a saved file reads it to the end and gives the saved keys that have not expired. */
  lemma SaveLoad(entries: seq<Entry>, now: nat)
    requires AllEntriesSized(entries) && |entries| < U64
    ensures Load(Saved(entries), now) == Got(Kept(entries, now, map[]), |Saved(entries)|)
  {
    hide TakeNumber, ToBytes, TakeEntries, PutEntries, Kept, AllEntriesSized;
    var data := Saved(entries);
    var n := ToBytes(|entries|, 8);
    assert Holds(data, 0, MAGIC + n + PutEntries(entries));
    HoldsSplit(data, 0, MAGIC + n, PutEntries(entries));
    HoldsSplit(data, 0, MAGIC, n);
    PowFacts();
    NumberRead(data, |MAGIC|, |entries|, 8);
    EntriesRead(data, |MAGIC| + 8, entries, now, map[]);
  }

  // ---------------------------------------------------------------------------
  // What that keyspace is
  // ---------------------------------------------------------------------------

  /** No two elements have the same name. */
  ghost predicate Distinct(items: seq<Item>) {
    forall i, j :: 0 <= i < j < |items| ==> items[i].name != items[j].name
  }

  /** The elements are those of the value: in order for a list, in any order otherwise. */
  ghost predicate Enumerates(v: Stored, o: Obj) {
    match v
    case Text(s, _) => o == Str(s)
    case Items(shape, items) =>
      && AllFit(shape, items)
      && match shape {
        case ListShape =>
          o.List? && |o.items| == |items| && forall i :: 0 <= i < |items| ==> items[i].name == o.items[i]
        case SetShape => o.Set? && forall x :: x in o.members <==> exists i :: 0 <= i < |items| && items[i].name == x
        case HashShape =>
          && o.Hash? && Distinct(items)
          && (forall x :: x in o.fields <==> exists i :: 0 <= i < |items| && items[i].name == x)
          && forall i :: 0 <= i < |items| ==> o.fields[items[i].name] == items[i].text
        case ZSetShape =>
          && o.ZSet? && Distinct(items)
          && (forall x :: x in o.scores <==> exists i :: 0 <= i < |items| && items[i].name == x)
          && forall i :: 0 <= i < |items| ==> o.scores[items[i].name] == items[i].bits
      }
  }

  lemma {:induction false} FieldsAre(items: seq<Item>)
    requires AllFit(HashShape, items) && Distinct(items)
    ensures forall x :: x in Fields(items) <==> exists i :: 0 <= i < |items| && items[i].name == x
    ensures forall i :: 0 <= i < |items| ==>
      items[i].name in Fields(items) && Fields(items)[items[i].name] == items[i].text
  {
    if items != [] {
      var last := |items| - 1;
      FieldsAre(items[..last]);
      forall i | 0 <= i < last
        ensures items[i].name in Fields(items) && Fields(items)[items[i].name] == items[i].text
      {
        assert items[..last][i] == items[i];
      }
    }
  }

  lemma {:induction false} ScoresAre(items: seq<Item>)
    requires AllFit(ZSetShape, items) && Distinct(items)
    ensures forall x :: x in Scores(items) <==> exists i :: 0 <= i < |items| && items[i].name == x
    ensures forall i :: 0 <= i < |items| ==>
      items[i].name in Scores(items) && Scores(items)[items[i].name] == items[i].bits
  {
    if items != [] {
      var last := |items| - 1;
      ScoresAre(items[..last]);
      forall i | 0 <= i < last
        ensures items[i].name in Scores(items) && Scores(items)[items[i].name] == items[i].bits
      {
        assert items[..last][i] == items[i];
      }
    }
  }

  lemma {:induction false} MembersAre(items: seq<Item>)
    ensures forall x :: x in Members(items) <==> exists i :: 0 <= i < |items| && items[i].name == x
  {
    if items != [] {
      MembersAre(items[..|items| - 1]);
      assert items == items[..|items| - 1] + [items[|items| - 1]];
    }
  }

  lemma {:induction false} NamesAre(items: seq<Item>)
    ensures |Names(items)| == |items| && forall i :: 0 <= i < |items| ==> Names(items)[i] == items[i].name
  {
    if items != [] {
      NamesAre(items[..|items| - 1]);
    }
  }

  /** Writing out a value's elements and inserting them again gives the value. */
  lemma EnumerationBuilds(v: Stored, o: Obj)
    requires Enumerates(v, o)
    ensures Meaning(v) == o
  {
    hide Names, Members, Fields, Scores;
    match v {
      case Text(_, _) =>
      case Items(shape, items) =>
        match shape {
          case ListShape => NamesAre(items);
          case SetShape => MembersAre(items);
          case HashShape => FieldsAre(items);
          case ZSetShape => ScoresAre(items);
        }
    }
  }

  /** One entry for each key of a keyspace; no deadline is written as zero. */
  ghost predicate Lists(entries: seq<Entry>, ks: map<string, Cell>) {
    && (forall i, j :: 0 <= i < j < |entries| ==> entries[i].key != entries[j].key)
    && (forall k :: k in ks <==> exists i :: 0 <= i < |entries| && entries[i].key == k)
    && forall i :: 0 <= i < |entries| ==>
      entries[i].key in ks && ListsCell(entries[i], ks[entries[i].key])
  }

  ghost predicate ListsCell(e: Entry, c: Cell) {
    e.deadline == (if c.deadline == None then 0 else c.deadline.value) && Enumerates(e.value, c.value)
  }

  predicate Expired(c: Cell, now: nat) {
    c.deadline.Some? && c.deadline.value != 0 && c.deadline.value <= now
  }

  /** A deadline of zero is not told apart from none. */
  function Reloaded(c: Cell): Cell {
    if c.deadline == Some(0) then Cell(c.value, None) else c
  }

  lemma {:induction false} KeptIs(entries: seq<Entry>, ks: map<string, Cell>, now: nat, start: map<string, Cell>)
    requires AllEntriesSized(entries)
    requires forall i, j :: 0 <= i < j < |entries| ==> entries[i].key != entries[j].key
    requires forall i :: 0 <= i < |entries| ==> entries[i].key !in start
    requires forall i :: 0 <= i < |entries| ==> entries[i].key in ks && ListsCell(entries[i], ks[entries[i].key])
    ensures forall k :: k in start ==> k in Kept(entries, now, start) && Kept(entries, now, start)[k] == start[k]
    ensures forall k :: k in Kept(entries, now, start) ==>
      k in start || exists i :: 0 <= i < |entries| && entries[i].key == k
    ensures forall i :: 0 <= i < |entries| ==>
      var k, r := entries[i].key, Kept(entries, now, start);
      if Expired(ks[k], now) then k !in r else k in r && r[k] == Reloaded(ks[k])
    decreases |entries|
  {
    hide EntrySized;
    if entries != [] {
      var e, rest := entries[0], entries[1..];
      assert EntrySized(e);
      EnumerationIsSized(e);
      EnumerationBuilds(e.value, ks[e.key].value);
      hide Enumerates, Meaning;
      var next := Keep(start, Loaded(e.key, e.deadline, Meaning(e.value)), now);
      assert forall i :: 0 <= i < |rest| ==> rest[i] == entries[i + 1];
      KeptIs(rest, ks, now, next);
      assert Kept(entries, now, start) == Kept(rest, now, next);
      forall i | 0 <= i < |entries|
        ensures var k, r := entries[i].key, Kept(entries, now, start);
          if Expired(ks[k], now) then k !in r else k in r && r[k] == Reloaded(ks[k])
      {
        if i > 0 {
          assert rest[i - 1] == entries[i];
        }
      }
    }
  }

  lemma EnumerationIsSized(e: Entry)
    requires EntrySized(e)
    ensures e.value.Items? ==> AllFit(e.value.shape, e.value.items)
  {
  }

  /** What comes back: the loader drops what it takes to be expired, and takes deadline zero for none. */
  function Alive(ks: map<string, Cell>, now: nat): map<string, Cell> {
    map k | k in ks && !Expired(ks[k], now) :: Reloaded(ks[k])
  }

  /** What should come back: every key whose deadline, if it has one, is still to come. */
  function Unexpired(ks: map<string, Cell>, now: nat): map<string, Cell> {
    map k | k in ks && !(ks[k].deadline.Some? && ks[k].deadline.value <= now) :: ks[k]
  }

  /** Saving a keyspace and loading it into an empty one gives it back without its expired keys, exactly when no
      deadline is zero. */
  lemma RoundTrip(entries: seq<Entry>, ks: map<string, Cell>, now: nat)
    requires AllEntriesSized(entries) && |entries| < U64 && Lists(entries, ks)
    ensures Load(Saved(entries), now) == Got(Alive(ks, now), |Saved(entries)|)
    ensures Load(Saved(entries), now) == Got(Unexpired(ks, now), |Saved(entries)|)
      <==> forall k :: k in ks ==> ks[k].deadline != Some(0)
  {
    hide *;
    SaveLoad(entries, now);
    KeptIsAlive(entries, ks, now);
    AliveIsPlain(ks, now);
  }

  lemma AliveIsPlain(ks: map<string, Cell>, now: nat)
    ensures Alive(ks, now) == Unexpired(ks, now) <==> forall k :: k in ks ==> ks[k].deadline != Some(0)
  {
    if k :| k in ks && ks[k].deadline == Some(0) {
      assert k in Alive(ks, now) && k !in Unexpired(ks, now);
    } else {
      assert forall k :: k in ks ==> Reloaded(ks[k]) == ks[k];
    }
  }

  lemma KeptIsAlive(entries: seq<Entry>, ks: map<string, Cell>, now: nat)
    requires AllEntriesSized(entries) && Lists(entries, ks)
    ensures Kept(entries, now, map[]) == Alive(ks, now)
  {
    hide AllEntriesSized, Kept, Expired, ListsCell, Reloaded;
    KeptIs(entries, ks, now, map[]);
    var r, alive := Kept(entries, now, map[]), Alive(ks, now);
    forall k | k in r || k in alive
      ensures k in r && k in alive && r[k] == alive[k]
    {
      var i :| 0 <= i < |entries| && entries[i].key == k;
    }
  }

  /** A key whose deadline is zero comes back without a deadline, and stays for ever. */
  lemma ZeroDeadlineIsLost(key: string, o: Obj, v: Stored, now: nat)
    requires |key| <= MAX_STRING && ValueSized(v) && Enumerates(v, o)
    ensures Load(Saved([Entry(key, 0, v)]), now) == Got(map[key := Cell(o, None)], |Saved([Entry(key, 0, v)])|)
  {
    var ks, entries := map[key := Cell(o, Some(0))], [Entry(key, 0, v)];
    ListsOne(key, o, v);
    hide *;
    RoundTrip(entries, ks, now);
  }

  lemma ListsOne(key: string, o: Obj, v: Stored)
    requires |key| <= MAX_STRING && ValueSized(v) && Enumerates(v, o)
    ensures AllEntriesSized([Entry(key, 0, v)]) && Lists([Entry(key, 0, v)], map[key := Cell(o, Some(0))])
    ensures forall now :: Alive(map[key := Cell(o, Some(0))], now) == map[key := Cell(o, None)]
  {
    hide ValueSized, Enumerates;
    var e, c := Entry(key, 0, v), Cell(o, Some(0));
    assert EntrySized(e) && ListsCell(e, c);
    assert [e][0].key == key;
  }

  // ---------------------------------------------------------------------------
  // Truncated files
  // ---------------------------------------------------------------------------

  lemma NumberStable(data: string, more: string, pos: nat, n: nat)
    requires TakeNumber(data, pos, n).Got?
    ensures TakeNumber(data + more, pos, n) == TakeNumber(data, pos, n) && TakeNumber(data, pos, n).next <= |data|
  {
    assert (data + more)[pos..pos + n] == data[pos..pos + n];
  }

  lemma StringStable(data: string, more: string, pos: nat)
    requires TakeString(data, pos).Got?
    ensures TakeString(data + more, pos) == TakeString(data, pos) && TakeString(data, pos).next <= |data|
  {
    NumberStable(data, more, pos, 4);
    var n := TakeNumber(data, pos, 4);
    hide TakeNumber;
    assert (data + more)[n.next..n.next + n.value] == data[n.next..n.next + n.value];
  }

  lemma ItemStable(data: string, more: string, pos: nat, shape: Shape)
    requires TakeItem(data, pos, shape).Got?
    ensures TakeItem(data + more, pos, shape) == TakeItem(data, pos, shape) && TakeItem(data, pos, shape).next <= |data|
  {
    hide TakeString, TakeNumber;
    StringStable(data, more, pos);
    var next := TakeString(data, pos).next;
    if shape == HashShape {
      StringStable(data, more, next);
    } else if shape == ZSetShape {
      NumberStable(data, more, next, 8);
    }
  }

  lemma {:induction false} ItemsStable(data: string, more: string, pos: nat, shape: Shape, n: nat, read: seq<Item>)
    requires pos <= |data| && AllFit(shape, read) && TakeItems(data, pos, shape, n, read).Got?
    ensures TakeItems(data + more, pos, shape, n, read) == TakeItems(data, pos, shape, n, read)
    ensures TakeItems(data, pos, shape, n, read).next <= |data|
    decreases n
  {
    hide TakeItem, ItemFits;
    if n > 0 {
      ItemStable(data, more, pos, shape);
      var i := TakeItem(data, pos, shape);
      ItemsStable(data, more, i.next, shape, n - 1, read + [i.value]);
    }
  }

  lemma BodyStable(data: string, more: string, pos: nat, tag: nat)
    requires TakeBody(data, pos, tag).Got?
    ensures TakeBody(data + more, pos, tag) == TakeBody(data, pos, tag) && TakeBody(data, pos, tag).next <= |data|
  {
    hide TakeString, TakeNumber, TakeItems, Build;
    if tag == 0 || tag == 5 {
      StringStable(data, more, pos);
    } else {
      NumberStable(data, more, pos, 4);
      var n := TakeNumber(data, pos, 4);
      ItemsStable(data, more, n.next, ShapeOf(tag).value, n.value, []);
    }
  }

  lemma EntryStable(data: string, more: string, pos: nat)
    requires TakeEntry(data, pos).Got?
    ensures TakeEntry(data + more, pos) == TakeEntry(data, pos) && TakeEntry(data, pos).next <= |data|
  {
    hide TakeString, TakeNumber, TakeBody;
    NumberStable(data, more, pos, 1);
    var tag := TakeNumber(data, pos, 1);
    StringStable(data, more, tag.next);
    var key := TakeString(data, tag.next);
    NumberStable(data, more, key.next, 8);
    BodyStable(data, more, TakeNumber(data, key.next, 8).next, tag.value);
  }

  lemma {:induction false} EntriesStable(data: string, more: string, pos: nat, count: nat, now: nat,
      ks: map<string, Cell>)
    requires pos <= |data| && TakeEntries(data, pos, count, now, ks).Got?
    ensures TakeEntries(data + more, pos, count, now, ks) == TakeEntries(data, pos, count, now, ks)
    ensures TakeEntries(data, pos, count, now, ks).next <= |data|
    decreases count
  {
    hide TakeEntry, Keep;
    if count > 0 {
      EntryStable(data, more, pos);
      var l := TakeEntry(data, pos);
      EntriesStable(data, more, l.next, count - 1, now, Keep(ks, l.value, now));
    }
  }

  /** A file that loads still loads, to the same keyspace and the same end, with anything appended. */
  lemma LoadStable(data: string, more: string, now: nat)
    requires Load(data, now).Got?
    ensures Load(data + more, now) == Load(data, now) && Load(data, now).next <= |data|
  {
    hide TakeNumber, TakeEntries;
    assert (data + more)[0..8] == data[0..8];
    NumberStable(data, more, 8, 8);
    var count := TakeNumber(data, 8, 8);
    EntriesStable(data, more, count.next, count.value, now, map[]);
  }

  /** Every strict prefix of a saved file is refused. */
  lemma PrefixRefused(entries: seq<Entry>, k: nat, now: nat)
    requires AllEntriesSized(entries) && |entries| < U64 && k < |Saved(entries)|
    ensures Load(Saved(entries)[..k], now) == Fail
  {
    hide Saved, Load, EntrySized;
    var data, more := Saved(entries)[..k], Saved(entries)[k..];
    assert data + more == Saved(entries);
    SaveLoad(entries, now);
    if Load(data, now).Got? {
      LoadStable(data, more, now);
    }
  }

  // ---------------------------------------------------------------------------
  // Strings the reader refuses
  // ---------------------------------------------------------------------------

  lemma LongStringRefused(data: string, pos: nat, s: string)
    requires Holds(data, pos, PutString(s)) && MAX_STRING < |s| < U32
    ensures TakeString(data, pos) == Fail
  {
    PowFacts();
    HoldsSplit(data, pos, ToBytes(|s| % U32, 4), s);
    NumberRead(data, pos, |s|, 4);
  }

  /** Sizes the writer's fields can hold: a length field has 32 bits, but the reader refuses strings above its limit. */
  predicate ItemWritable(i: Item) {
    |i.name| < U32 && (i.Two? ==> |i.text| < U32) && (i.Scored? ==> i.bits < U64)
  }

  predicate AllWritable(items: seq<Item>) {
    forall i :: 0 <= i < |items| ==> ItemWritable(items[i])
  }

  predicate EntryWritable(e: Entry) {
    && |e.key| < U32 && e.deadline < U64
    && match e.value
       case Text(s, _) => |s| < U32
       case Items(shape, items) => |items| < U32 && AllFit(shape, items) && AllWritable(items)
  }

  lemma LongItemRefused(data: string, pos: nat, shape: Shape, i: Item)
    requires Holds(data, pos, PutItem(i)) && ItemFits(shape, i) && ItemWritable(i) && !ItemSized(i)
    ensures TakeItem(data, pos, shape) == Fail
  {
    hide TakeString, TakeNumber, PutString, ToBytes;
    match i
    case One(name) =>
      LongStringRefused(data, pos, name);
    case Scored(name, bits) =>
      HoldsSplit(data, pos, PutString(name), ToBytes(bits, 8));
      LongStringRefused(data, pos, name);
    case Two(name, text) =>
      HoldsSplit(data, pos, PutString(name), PutString(text));
      if |name| > MAX_STRING {
        LongStringRefused(data, pos, name);
      } else {
        StringRead(data, pos, name);
        LongStringRefused(data, pos + |PutString(name)|, text);
      }
  }

  lemma {:induction false} LongItemsRefused(data: string, pos: nat, shape: Shape, items: seq<Item>, read: seq<Item>)
    requires Holds(data, pos, PutItems(items)) && AllFit(shape, items) && AllWritable(items) && AllFit(shape, read)
    requires !AllSized(items)
    ensures TakeItems(data, pos, shape, |items|, read) == Fail
    decreases |items|
  {
    hide TakeItem, PutItem, Holds, ItemFits, ItemSized, ItemWritable;
    var i, rest := items[0], items[1..];
    HoldsSplit(data, pos, PutItem(i), PutItems(rest));
    if ItemSized(i) {
      assert ItemFits(shape, i);
      ItemRead(data, pos, shape, i);
      LongItemsRefused(data, pos + |PutItem(i)|, shape, rest, read + [i]);
    } else {
      LongItemRefused(data, pos, shape, i);
    }
  }

  lemma LongBodyRefused(data: string, pos: nat, e: Entry)
    requires Holds(data, pos, PutBody(e.value)) && EntryWritable(e) && !ValueSized(e.value)
    ensures TakeBody(data, pos, Tag(e.value)) == Fail
  {
    hide TakeString, PutString, TakeNumber, ToBytes, TakeItems, PutItems, Build;
    match e.value
    case Text(s, _) =>
      LongStringRefused(data, pos, s);
    case Items(shape, items) =>
      HoldsSplit(data, pos, ToBytes(|items| % U32, 4), PutItems(items));
      PowFacts();
      NumberRead(data, pos, |items|, 4);
      LongItemsRefused(data, pos + 4, shape, items, []);
  }

  lemma LongEntryRefused(data: string, pos: nat, e: Entry)
    requires Holds(data, pos, PutEntry(e)) && EntryWritable(e) && !EntrySized(e)
    ensures TakeEntry(data, pos) == Fail
  {
    hide TakeString, PutString, TakeNumber, ToBytes, TakeBody, PutBody, ValueSized, Holds;
    var a, b, c, d := ToBytes(Tag(e.value), 1), PutString(e.key), ToBytes(e.deadline, 8), PutBody(e.value);
    HoldsSplit(data, pos, a + b + c, d);
    HoldsSplit(data, pos, a + b, c);
    HoldsSplit(data, pos, a, b);
    PowFacts();
    NumberRead(data, pos, Tag(e.value), 1);
    if |e.key| > MAX_STRING {
      LongStringRefused(data, pos + 1, e.key);
    } else {
      StringRead(data, pos + 1, e.key);
      NumberRead(data, pos + 1 + |b|, e.deadline, 8);
      LongBodyRefused(data, pos + 1 + |b| + 8, e);
    }
  }

  lemma {:induction false} LongEntriesRefused(data: string, pos: nat, entries: seq<Entry>, now: nat,
      ks: map<string, Cell>)
    requires Holds(data, pos, PutEntries(entries)) && !AllEntriesSized(entries)
    requires forall i :: 0 <= i < |entries| ==> EntryWritable(entries[i])
    ensures TakeEntries(data, pos, |entries|, now, ks) == Fail
    decreases |entries|
  {
    hide TakeEntry, PutEntry, Keep, Meaning, Holds, EntrySized, EntryWritable;
    var e, rest := entries[0], entries[1..];
    HoldsSplit(data, pos, PutEntry(e), PutEntries(rest));
    if EntrySized(e) {
      EntryRead(data, pos, e);
      LongEntriesRefused(data, pos + |PutEntry(e)|, rest, now, Keep(ks, TakeEntry(data, pos).value, now));
    } else {
      LongEntryRefused(data, pos, e);
    }
  }

  /** A saved file can be loaded exactly when no key, value, element or field in it is longer than the reader's
      limit. */
  lemma LoadsExactly(entries: seq<Entry>, now: nat)
    requires |entries| < U64 && forall i :: 0 <= i < |entries| ==> EntryWritable(entries[i])
    ensures Load(Saved(entries), now).Got? <==> AllEntriesSized(entries)
  {
    hide TakeNumber, ToBytes, TakeEntries, PutEntries, AllEntriesSized, EntryWritable;
    if AllEntriesSized(entries) {
      SaveLoad(entries, now);
    } else {
      var data, n := Saved(entries), ToBytes(|entries|, 8);
      assert Holds(data, 0, MAGIC + n + PutEntries(entries));
      HoldsSplit(data, 0, MAGIC + n, PutEntries(entries));
      HoldsSplit(data, 0, MAGIC, n);
      PowFacts();
      NumberRead(data, |MAGIC|, |entries|, 8);
      LongEntriesRefused(data, |MAGIC| + 8, entries, now, map[]);
    }
  }
}

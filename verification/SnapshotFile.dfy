/** The snapshot writer and reader, step by step. */
module SnapshotFiles {
  import opened Options
  import opened Resp
  import opened Handlers
  import opened Snapshots

  lemma {:induction false} PutItemsAppend(items: seq<Item>, i: nat)
    requires i < |items|
    ensures PutItems(items[..i + 1]) == PutItems(items[..i]) + PutItem(items[i])
  {
    hide PutItem;
    if i == 0 {
      assert items[..1] == [items[0]] && items[..0] == [] && items[..1][1..] == [];
    } else {
      PutItemsAppend(items[1..], i - 1);
      assert items[..i + 1][1..] == items[1..][..i] && items[..i][1..] == items[1..][..i - 1];
    }
  }

  lemma {:induction false} PutEntriesAppend(entries: seq<Entry>, i: nat)
    requires i < |entries|
    ensures PutEntries(entries[..i + 1]) == PutEntries(entries[..i]) + PutEntry(entries[i])
  {
    hide PutEntry;
    if i == 0 {
      assert entries[..1] == [entries[0]] && entries[..0] == [] && entries[..1][1..] == [];
    } else {
      PutEntriesAppend(entries[1..], i - 1);
      assert entries[..i + 1][1..] == entries[1..][..i] && entries[..i][1..] == entries[1..][..i - 1];
    }
  }

  lemma Regroup(a: string, b: string, c: string)
    ensures a + (b + c) == a + b + c
  {
  }

  class Writer {
    var out: string

    constructor ()
      ensures out == []
    {
      out := [];
    }

    method WriteNumber(v: nat, n: nat)
      modifies this
      ensures out == old(out) + ToBytes(v, n)
    {
      out := out + ToBytes(v, n);
    }

    method WriteString(s: string)
      modifies this
      ensures out == old(out) + PutString(s)
    {
      WriteNumber(|s| % U32, 4);
      out := out + s;
    }

    method WriteItem(i: Item)
      modifies this
      ensures out == old(out) + PutItem(i)
    {
      hide PutString, ToBytes;
      WriteString(i.name);
      match i
      case One(_) =>
      case Two(name, text) =>
        Regroup(old(out), PutString(name), PutString(text));
        WriteString(text);
      case Scored(name, bits) =>
        Regroup(old(out), PutString(name), ToBytes(bits, 8));
        WriteNumber(bits, 8);
    }

    method WriteItems(items: seq<Item>)
      modifies this
      ensures out == old(out) + PutItems(items)
    {
      hide PutItem;
      for i := 0 to |items|
        invariant out == old(out) + PutItems(items[..i])
      {
        PutItemsAppend(items, i);
        WriteItem(items[i]);
      }
      assert items[..|items|] == items;
    }

    method WriteObject(e: Entry)
      modifies this
      ensures out == old(out) + PutEntry(e)
    {
      hide ToBytes, PutString, PutItems;
      WriteNumber(Tag(e.value), 1);
      WriteString(e.key);
      WriteNumber(e.deadline, 8);
      match e.value
      case Text(s, _) =>
        WriteString(s);
      case Items(_, items) =>
        WriteNumber(|items| % U32, 4);
        WriteItems(items);
    }

    method Save(entries: seq<Entry>)
      requires out == []
      modifies this
      ensures out == Saved(entries)
    {
      hide ToBytes, PutEntry;
      out := out + MAGIC;
      WriteNumber(|entries|, 8);
      ghost var head := out;
      for i := 0 to |entries|
        invariant out == head + PutEntries(entries[..i])
      {
        PutEntriesAppend(entries, i);
        WriteObject(entries[i]);
      }
      assert entries[..|entries|] == entries;
    }
  }

  class Reader {
    const data: string
    var pos: nat
    var ok: bool

    constructor (data: string)
      ensures this.data == data && pos == 0 && ok
    {
      this.data, pos, ok := data, 0, true;
    }

    /** The reader ended up where `r` says, with value `v`. */
    ghost predicate Read<T(!new)>(r: Got<T>, v: T)
      reads this
    {
      ok == r.Got? && (ok ==> v == r.value && pos == r.next)
    }

    method ReadBytes(n: nat) returns (s: string)
      modifies this
      ensures if old(ok) then Read(TakeBytes(data, old(pos), n), s) else !ok
    {
      s := [];
      if !ok {
        return;
      }
      if pos + n > |data| {
        ok := false;
        return;
      }
      s := data[pos..pos + n];
      pos := pos + n;
    }

    method ReadNumber(n: nat) returns (v: nat)
      modifies this
      ensures if old(ok) then Read(TakeNumber(data, old(pos), n), v) else !ok
    {
      var s := ReadBytes(n);
      v := if ok then FromBytes(s) else 0;
    }

    method ReadString() returns (s: string)
      modifies this
      ensures if old(ok) then Read(TakeString(data, old(pos)), s) else !ok
    {
      hide FromBytes;
      var n := ReadNumber(4);
      if !ok || n > MAX_STRING {
        ok := false;
        return [];
      }
      s := ReadBytes(n);
    }

    method ReadItem(shape: Shape) returns (i: Item)
      modifies this
      ensures if old(ok) then Read(TakeItem(data, old(pos), shape), i) else !ok
    {
      hide TakeString, TakeNumber;
      var name := ReadString();
      i := One(name);
      if shape == HashShape {
        var text := ReadString();
        i := Two(name, text);
      } else if shape == ZSetShape {
        var bits := ReadNumber(8);
        i := Scored(name, bits);
      }
    }

    /** Reading `n` elements, stopping at the first that cannot be read. */
    method ReadItems(shape: Shape, n: nat) returns (items: seq<Item>)
      requires ok
      modifies this
      ensures Read(TakeItems(data, old(pos), shape, n, []), items)
      ensures ok ==> AllFit(shape, items)
    {
      hide TakeItem, ItemFits;
      items := [];
      var i := 0;
      ghost var goal := TakeItems(data, pos, shape, n, []);
      while i < n && ok
        invariant 0 <= i <= n
        invariant ok ==> AllFit(shape, items) && TakeItems(data, pos, shape, n - i, items) == goal
        invariant !ok ==> goal == Fail
      {
        var item := ReadItem(shape);
        items := items + [item];
        i := i + 1;
      }
    }

    method ReadObject(ks: map<string, Cell>, now: nat) returns (r: map<string, Cell>)
      requires ok
      modifies this
      ensures var l := TakeEntry(data, old(pos));
        ok == l.Got? && (ok ==> pos == l.next && r == Keep(ks, l.value, now))
    {
      hide TakeString, TakeNumber, TakeItems, Build, AllFit;
      r := ks;
      var tag := ReadNumber(1);
      var key := ReadString();
      var deadline := ReadNumber(8);
      if !ok {
        return;
      }
      var expired := deadline != 0 && deadline <= now;
      var value: Obj;
      if tag == 0 || tag == 5 {
        var s := ReadString();
        value := Str(s);
      } else if ShapeOf(tag) != None {
        var n := ReadNumber(4);
        if !ok {
          return;
        }
        var items := ReadItems(ShapeOf(tag).value, n);
        if !ok {
          return;
        }
        value := Build(ShapeOf(tag).value, items);
      } else {
        ok := false;
        return;
      }
      if !expired && ok {
        r := r[key := Cell(value, None)];
      }
      if !expired && deadline != 0 && ok {
        r := r[key := Cell(value, Some(deadline))];
      }
    }

    method LoadFile(now: nat) returns (good: bool, ks: map<string, Cell>)
      requires ok && pos == 0
      modifies this
      ensures good == Load(data, now).Got? && (good ==> ks == Load(data, now).value)
    {
      hide TakeNumber, TakeEntry, Keep;
      ks := map[];
      var magic := ReadBytes(|MAGIC|);
      if !ok || magic != MAGIC {
        return false, ks;
      }
      var count := ReadNumber(8);
      ghost var goal := Load(data, now);
      var i := 0;
      if !ok {
        return false, ks;
      }
      while i < count && ok
        invariant 0 <= i <= count
        invariant ok ==> TakeEntries(data, pos, count - i, now, ks) == goal
        invariant !ok ==> goal == Fail
      {
        ks := ReadObject(ks, now);
        i := i + 1;
      }
      good := ok;
    }
  }
}

/** Rebuilding the queue from its directory after a restart. */
module EdgeReplay {
  import opened Strings
  import opened EdgeRecords

  /** The directory: file names and contents. */
  type Disk = map<string, Bytes>

  datatype Memory = Memory(items: seq<Item>, curBytes: int, next: nat)

  datatype Outcome = Replayed(memory: Memory) | Crashed

  predicate Ordered(items: seq<Item>) {
    forall i, j {:trigger items[i].num, items[j].num} :: 0 <= i < j < |items| ==> items[i].num < items[j].num
  }

  function DataBytes(items: seq<Item>): nat {
    if items == [] then 0 else DataBytes(items[..|items| - 1]) + |items[|items| - 1].data|
  }

  function LastNum(items: seq<Item>): nat {
    if items == [] then 0 else items[|items| - 1].num
  }

  /** One directory entry added to what has been read so far. */
  function ReplayFile(m: Memory, name: string, body: Bytes): Outcome {
    var num := ParseName(name);
    if num.None? then Replayed(m)
    else
      match Parse(body)
      case Skipped => Replayed(m)
      case Panicked => Crashed
      case Record(subject, data) =>
        Replayed(Memory(m.items + [Item(num.value, subject, data)], m.curBytes + |data|,
                        if num.value > m.next then num.value else m.next))
  }

  function ReplayNames(disk: Disk, names: seq<string>): Outcome
    requires forall n :: n in names ==> n in disk
  {
    if names == [] then Replayed(Memory([], 0, 0))
    else
      var k := |names| - 1;
      var front := ReplayNames(disk, names[..k]);
      if front.Crashed? then Crashed else ReplayFile(front.memory, names[k], disk[names[k]])
  }

  lemma ReplayNext(disk: Disk, names: seq<string>, k: nat)
    requires (forall n :: n in names ==> n in disk) && k < |names|
    requires ReplayNames(disk, names[..k]).Replayed?
    ensures ReplayNames(disk, names[..k + 1])
            == ReplayFile(ReplayNames(disk, names[..k]).memory, names[k], disk[names[k]])
  {
    hide ReplayFile;
    assert names[..k + 1][..k] == names[..k];
  }

  method ListDirectory(disk: Disk) returns (names: seq<string>)
    ensures Distinct(names) && forall n :: n in names <==> n in disk
  {
    names := [];
    var todo := disk.Keys;
    while todo != {}
      invariant todo <= disk.Keys && Distinct(names)
      invariant forall n :: n in names <==> n in disk && n !in todo
      decreases todo
    {
      var n :| n in todo;
      names := names + [n];
      todo := todo - {n};
    }
  }

  /** The directory's names in the order they are read. */
  ghost predicate Sorted(disk: Disk, names: seq<string>) {
    StrictlySorted(names) && forall n :: n in names <==> n in disk
  }

  /** The result is that of reading the files in name order. */
  method Replay(disk: Disk) returns (r: Outcome)
    ensures exists names :: Sorted(disk, names) && r == ReplayNames(disk, names)
    ensures forall names :: Sorted(disk, names) ==> r == ReplayNames(disk, names)
  {
    hide ReplayFile, StrictlySorted, Distinct, Sort;
    var listed := ListDirectory(disk);
    var names := Sort(listed);
    SortIsSorted(listed);
    r := Replayed(Memory([], 0, 0));
    for k := 0 to |names|
      invariant r.Replayed? && r == ReplayNames(disk, names[..k])
    {
      ReplayNext(disk, names, k);
      assert names[k] in names;
      r := ReplayFile(r.memory, names[k], disk[names[k]]);
      if r.Crashed? {
        CrashIsFinal(disk, names, k + 1);
        break;
      }
    }
    assert names[..|names|] == names;
    assert Sorted(disk, names);
    forall other | Sorted(disk, other)
      ensures r == ReplayNames(disk, other)
    {
      SortedUnique(names, other);
    }
  }

  lemma {:induction false} CrashIsFinal(disk: Disk, names: seq<string>, k: nat)
    requires (forall n :: n in names ==> n in disk) && k <= |names|
    requires ReplayNames(disk, names[..k]).Crashed?
    ensures ReplayNames(disk, names).Crashed?
    decreases |names|
  {
    if k == |names| {
      assert names[..k] == names;
    } else {
      var front := names[..|names| - 1];
      assert front[..k] == names[..k];
      CrashIsFinal(disk, front, k);
    }
  }

  // ---------- the directory a queue leaves behind ----------

  /** The files that completed `persist` calls leave for these messages. */
  function DiskOf(items: seq<Item>): Disk {
    if items == [] then map[]
    else
      var it := items[|items| - 1];
      DiskOf(items[..|items| - 1])[FileName(it.num) := Encode(it.subject, it.data)]
  }

  function Names(items: seq<Item>): seq<string> {
    seq(|items|, i requires 0 <= i < |items| => FileName(items[i].num))
  }

  predicate Numbered(items: seq<Item>) {
    Ordered(items) && forall i :: 0 <= i < |items| ==> items[i].num < U64
  }

  lemma NamesAreSorted(items: seq<Item>)
    requires Numbered(items)
    ensures StrictlySorted(Names(items))
  {
    forall i, j | 0 <= i < j < |items|
      ensures Less(Names(items)[i], Names(items)[j])
    {
      NameOrder(items[i].num, items[j].num);
    }
  }

  predicate OnDisk(disk: Disk, it: Item) {
    FileName(it.num) in disk && disk[FileName(it.num)] == Encode(it.subject, it.data)
  }

  lemma {:induction false} DiskMatches(items: seq<Item>)
    requires Numbered(items)
    ensures forall n :: n in Names(items) <==> n in DiskOf(items)
    ensures forall i :: 0 <= i < |items| ==> OnDisk(DiskOf(items), items[i])
  {
    if items != [] {
      var k := |items| - 1;
      DiskMatches(items[..k]);
      assert Names(items) == Names(items[..k]) + [FileName(items[k].num)];
      forall i | 0 <= i < k
        ensures FileName(items[i].num) != FileName(items[k].num)
      {
        NameOrder(items[i].num, items[k].num);
      }
      forall i | 0 <= i < |items|
        ensures OnDisk(DiskOf(items), items[i])
      {
        if i < k {
          assert items[..k][i] == items[i];
        }
      }
    }
  }

  predicate AllFit(items: seq<Item>) {
    forall i :: 0 <= i < |items| ==> Fits(items[i].subject, items[i].data)
  }

  lemma ReplayOwnFile(m: Memory, it: Item)
    requires it.num < U64
    ensures var r := ReplayFile(m, FileName(it.num), Encode(it.subject, it.data));
      if Fits(it.subject, it.data) then
        r == Replayed(Memory(m.items + [it], m.curBytes + |it.data|, if it.num > m.next then it.num else m.next))
      else
        r.Replayed? ==> r.memory.items == m.items || exists other :: other != it && r.memory.items == m.items + [other]
  {
    NameRoundTrip(it.num);
    RoundTripIffFits(it.subject, it.data);
  }

  lemma FitSnoc(front: seq<Item>, it: Item)
    ensures AllFit(front + [it]) <==> AllFit(front) && Fits(it.subject, it.data)
  {
    var all := front + [it];
    assert all[|front|] == it;
    assert forall i :: 0 <= i < |front| ==> all[i] == front[i];
  }

  /** The outcome of replaying the files of `items`: complete if all fit, and never by accident. */
  predicate Rebuilds(items: seq<Item>, r: Outcome) {
    && (AllFit(items) ==> r == Replayed(Memory(items, DataBytes(items), LastNum(items))))
    && (r.Replayed? ==> |r.memory.items| <= |items| && (r.memory.items == items ==> AllFit(items)))
  }

  lemma RebuildsSnoc(front: seq<Item>, it: Item, before: Outcome)
    requires Rebuilds(front, before) && Numbered(front + [it])
    ensures Rebuilds(front + [it],
                     if before.Crashed? then Crashed
                     else ReplayFile(before.memory, FileName(it.num), Encode(it.subject, it.data)))
  {
    hide FileName, Encode, ReplayFile, AllFit, Fits;
    FitSnoc(front, it);
    assert (front + [it])[|front|] == it;
    if before.Replayed? {
      ReplayOwnFile(before.memory, it);
      if AllFit(front + [it]) {
        MemorySnoc(front, it);
      } else if before.memory.items != front {
        OtherSnoc(before.memory.items, front, it);
      }
    }
  }

  lemma MemorySnoc(front: seq<Item>, it: Item)
    requires Numbered(front + [it])
    ensures LastNum(front) < it.num || front == []
    ensures DataBytes(front + [it]) == DataBytes(front) + |it.data| && LastNum(front + [it]) == it.num
  {
    var items := front + [it];
    assert items[..|front|] == front && items[|front|] == it;
    if front != [] {
      assert items[|front| - 1] == front[|front| - 1];
    }
  }

  lemma SnocInjective(found: seq<Item>, other: Item, front: seq<Item>, it: Item)
    requires found + [other] == front + [it]
    ensures found == front
  {
    assert found == (found + [other])[..|found|];
    assert front == (front + [it])[..|front|];
  }

  lemma OtherSnoc(found: seq<Item>, front: seq<Item>, it: Item)
    requires |found| <= |front| && found != front
    ensures forall other :: found + [other] != front + [it] && found != front + [it]
  {
    forall other
      ensures found + [other] != front + [it]
    {
      if found + [other] == front + [it] {
        SnocInjective(found, other, front, it);
      }
    }
  }

  lemma {:induction false} ReplayPrefix(disk: Disk, items: seq<Item>)
    requires Numbered(items) && forall i :: 0 <= i < |items| ==> OnDisk(disk, items[i])
    requires forall n :: n in Names(items) ==> n in disk
    ensures Rebuilds(items, ReplayNames(disk, Names(items)))
  {
    if items != [] {
      var k := |items| - 1;
      var it, front := items[k], items[..k];
      assert items == front + [it];
      assert OnDisk(disk, it);
      assert Names(items) == Names(front) + [FileName(it.num)];
      assert Names(items)[..k] == Names(front);
      ReplayPrefix(disk, front);
      RebuildsSnoc(front, it, ReplayNames(disk, Names(front)));
    }
  }

  /** A restart rebuilds the queue's messages (numbers, subjects, data, in order) exactly when every
      record has at most 65535 bytes; and then also its byte count and its highest number. */
  lemma ReplayRestoresIffAllFit(items: seq<Item>, names: seq<string>)
    requires Numbered(items)
    requires StrictlySorted(names) && forall n :: n in names <==> n in DiskOf(items)
    ensures var r := ReplayNames(DiskOf(items), names);
      && (r.Replayed? && r.memory.items == items <==> AllFit(items))
      && (AllFit(items) ==> r.memory.curBytes == DataBytes(items) && r.memory.next == LastNum(items))
  {
    DiskMatches(items);
    NamesAreSorted(items);
    SortedUnique(names, Names(items));
    ReplayPrefix(DiskOf(items), items);
  }

  /** Some record that was written makes reading it back panic. */
  ghost predicate SomePanics(items: seq<Item>) {
    exists i :: 0 <= i < |items| && Panics(items[i].subject, items[i].data)
  }

  lemma SomePanicsSnoc(front: seq<Item>, it: Item)
    ensures SomePanics(front + [it]) <==> SomePanics(front) || Panics(it.subject, it.data)
  {
    hide Panics;
    var all := front + [it];
    assert all[|front|] == it;
    assert forall i :: 0 <= i < |front| ==> all[i] == front[i];
  }

  lemma OwnFileCrashesIff(m: Memory, it: Item)
    requires it.num < U64
    ensures ReplayFile(m, FileName(it.num), Encode(it.subject, it.data)).Crashed? <==> Panics(it.subject, it.data)
  {
    hide Parse, Encode, Panics, FileName, ParseName;
    NameRoundTrip(it.num);
    ParseWritten(it.subject, it.data);
  }

  lemma {:induction false} PrefixCrashesIff(disk: Disk, items: seq<Item>)
    requires Numbered(items) && forall i :: 0 <= i < |items| ==> OnDisk(disk, items[i])
    requires forall n :: n in Names(items) ==> n in disk
    ensures ReplayNames(disk, Names(items)).Crashed? <==> SomePanics(items)
  {
    hide ReplayFile, FileName, Encode, Panics;
    if items != [] {
      var k := |items| - 1;
      var it, front := items[k], items[..k];
      assert items == front + [it];
      assert OnDisk(disk, it);
      assert Names(items) == Names(front) + [FileName(it.num)];
      assert Names(items)[..k] == Names(front);
      PrefixCrashesIff(disk, front);
      SomePanicsSnoc(front, it);
      var before := ReplayNames(disk, Names(front));
      if before.Replayed? {
        OwnFileCrashesIff(before.memory, it);
      }
    }
  }

  /** A restart over what completed writes left panics exactly when some record makes an offset wrap. */
  lemma ReplayCrashesIff(items: seq<Item>, names: seq<string>)
    requires Numbered(items) && Sorted(DiskOf(items), names)
    ensures ReplayNames(DiskOf(items), names).Crashed? <==> SomePanics(items)
  {
    DiskMatches(items);
    NamesAreSorted(items);
    SortedUnique(names, Names(items));
    PrefixCrashesIff(DiskOf(items), items);
  }

  // ---------- any directory ----------

  /** What reading files with these names leaves in memory. */
  predicate ReadFrom(names: seq<string>, m: Memory) {
    && Numbered(m.items) && m.next < U64 && m.curBytes == DataBytes(m.items)
    && forall i :: 0 <= i < |m.items| ==> m.items[i].num <= m.next && FileName(m.items[i].num) in names
  }

  lemma AppendOrdered(items: seq<Item>, it: Item)
    requires Numbered(items) && it.num < U64 && forall i :: 0 <= i < |items| ==> items[i].num < it.num
    ensures Numbered(items + [it]) && DataBytes(items + [it]) == DataBytes(items) + |it.data|
  {
    assert (items + [it])[..|items|] == items;
  }

  lemma ReadFromSnoc(front: seq<string>, m: Memory, name: string, num: nat, subject: Bytes, data: Bytes)
    requires ReadFrom(front, m) && num < U64 && FileName(num) == name
    requires forall n :: n in front ==> Less(n, name)
    ensures ReadFrom(front + [name], Memory(m.items + [Item(num, subject, data)], m.curBytes + |data|,
                                            if num > m.next then num else m.next))
  {
    hide FileName, DataBytes, Less;
    forall i | 0 <= i < |m.items|
      ensures m.items[i].num < num
    {
      assert m.items[i].num < U64 && FileName(m.items[i].num) in front;
      NameOrder(m.items[i].num, num);
    }
    AppendOrdered(m.items, Item(num, subject, data));
    hide Numbered;
    assert forall n :: n in front ==> n in front + [name];
    assert name in front + [name];
  }

  /** Whatever files there are, a replay that does not panic leaves the messages strictly ordered, the byte
      count right, and a file behind every message. */
  lemma {:induction false} ReplayIsOrdered(disk: Disk, names: seq<string>)
    requires StrictlySorted(names) && (forall n :: n in names ==> n in disk) && ReplayNames(disk, names).Replayed?
    ensures ReadFrom(names, ReplayNames(disk, names).memory)
  {
    hide Parse, FileName, ParseName, Less, Numbered, DataBytes;
    if names == [] {
      NothingRead();
    } else {
      var k := |names| - 1;
      var front, name := names[..k], names[k];
      assert names == front + [name];
      SortedLast(names);
      ReplayIsOrdered(disk, front);
      FileIsOrdered(front, ReplayNames(disk, front).memory, name, disk[name]);
    }
  }

  lemma NothingRead()
    ensures ReadFrom([], Memory([], 0, 0))
  {
  }

  lemma SortedLast(names: seq<string>)
    requires StrictlySorted(names) && names != []
    ensures var k := |names| - 1;
            StrictlySorted(names[..k]) && forall n :: n in names[..k] ==> Less(n, names[k])
  {
    hide Less;
  }

  lemma FileIsOrdered(front: seq<string>, m: Memory, name: string, body: Bytes)
    requires ReadFrom(front, m) && forall n :: n in front ==> Less(n, name)
    ensures ReplayFile(m, name, body).Replayed? ==> ReadFrom(front + [name], ReplayFile(m, name, body).memory)
  {
    hide Parse, FileName, ParseName, Less, Numbered, DataBytes;
    if ParseName(name).Some? && Parse(body).Record? {
      NameOfNumber(name);
      ReadFromSnoc(front, m, name, ParseName(name).value, Parse(body).subject, Parse(body).data);
    }
  }
}

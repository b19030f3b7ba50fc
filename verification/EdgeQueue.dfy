/** The edge gateway's store-and-forward queue: an in-memory index over numbered files.
    Each method is one section under the queue's mutex, except `Drain`, which here runs alone;
    EdgeDrain interleaves them. */
module EdgeQueue {
  import opened Options
  import opened EdgeRecords
  import opened EdgeReplay

  const DEFAULT_MAX_ITEMS := 100_000
  const DEFAULT_MAX_BYTES := 0x4000_0000
  const BATCH: nat := 64

  predicate WithinCaps(items: seq<Item>, maxItems: int, maxBytes: int) {
    |items| <= maxItems && DataBytes(items) <= maxBytes
  }

  /** What is left when the oldest items are dropped until the caps hold. */
  function DropExcess(items: seq<Item>, maxItems: int, maxBytes: int): seq<Item>
    decreases |items|
  {
    if items == [] || WithinCaps(items, maxItems, maxBytes) then items
    else DropExcess(items[1..], maxItems, maxBytes)
  }

  function AfterPut(items: seq<Item>, it: Item, maxItems: int, maxBytes: int): seq<Item> {
    DropExcess(items + [it], maxItems, maxBytes)
  }

  /** What is left when every item up to a number is acknowledged. */
  function AckRest(items: seq<Item>, upTo: nat): seq<Item>
    decreases |items|
  {
    if items == [] || items[0].num > upTo then items else AckRest(items[1..], upTo)
  }

  function PeekCount(n: int, depth: nat): nat {
    var wanted := if n <= 0 then 32 else n;
    if wanted > depth then depth else wanted
  }

  lemma {:induction false} DataBytesTail(items: seq<Item>)
    requires items != []
    ensures DataBytes(items) == |items[0].data| + DataBytes(items[1..])
  {
    var k := |items| - 1;
    if k > 0 {
      DataBytesTail(items[..k]);
      assert items[..k][1..] == items[1..][..k - 1];
    }
  }

  lemma OrderedTail(items: seq<Item>, d: nat)
    requires Numbered(items) && d <= |items|
    ensures Numbered(items[d..])
    ensures forall i :: 0 <= i < |items| - d ==> items[d..][i] == items[d + i]
  {
  }

  lemma DiskLast(items: seq<Item>)
    requires items != []
    ensures var it := items[|items| - 1];
            DiskOf(items) == DiskOf(items[..|items| - 1])[FileName(it.num) := Encode(it.subject, it.data)]
  {
  }

  lemma RemoveThenAdd<K, V>(m: map<K, V>, a: K, b: K, v: V)
    requires a != b
    ensures (m - {a})[b := v] == m[b := v] - {a}
  {
  }

  lemma {:induction false} DiskTail(items: seq<Item>)
    requires Numbered(items) && items != []
    ensures DiskOf(items[1..]) == DiskOf(items) - {FileName(items[0].num)}
  {
    hide FileName, Encode;
    var k := |items| - 1;
    var it := items[k];
    if k == 0 {
      assert items[..0] == [] && items[1..] == [];
    } else {
      hide DiskOf;
      DiskTail(items[..k]);
      NameOrder(items[0].num, it.num);
      DiskLast(items);
      DiskLast(items[1..]);
      assert items[..k][1..] == items[1..][..k - 1];
      RemoveThenAdd(DiskOf(items[..k]), FileName(items[0].num), FileName(it.num), Encode(it.subject, it.data));
    }
  }

  /** Dropping removes the fewest oldest items that make the rest fit. */
  lemma {:induction false} DropExcessIsLeast(items: seq<Item>, maxItems: nat, maxBytes: nat)
    ensures var d := |items| - |DropExcess(items, maxItems, maxBytes)|;
      && 0 <= d && DropExcess(items, maxItems, maxBytes) == items[d..]
      && WithinCaps(items[d..], maxItems, maxBytes)
      && forall e :: 0 <= e < d ==> !WithinCaps(items[e..], maxItems, maxBytes)
    decreases |items|
  {
    if items != [] && !WithinCaps(items, maxItems, maxBytes) {
      var rest := items[1..];
      DropExcessIsLeast(rest, maxItems, maxBytes);
      var d := |items| - |DropExcess(items, maxItems, maxBytes)|;
      assert rest[d - 1..] == items[d..];
      forall e | 0 <= e < d
        ensures !WithinCaps(items[e..], maxItems, maxBytes)
      {
        if e == 0 {
          assert items[0..] == items;
        } else {
          assert rest[e - 1..] == items[e..];
        }
      }
    } else {
      assert items[0..] == items;
    }
  }

  /** `kept` is what the caps leave of `all`: the longest part up to the newest item that has at most
      `maxItems` items and at most `maxBytes` bytes of data. */
  predicate IsLongestKept(all: seq<Item>, kept: seq<Item>, maxItems: int, maxBytes: int) {
    && |kept| <= |all| && kept == all[|all| - |kept|..]
    && |kept| <= maxItems && DataBytes(kept) <= maxBytes
    && forall e :: 0 <= e < |all| - |kept| ==> |all| - e > maxItems || DataBytes(all[e..]) > maxBytes
  }

  /** Putting keeps the longest part that fits the caps; so the new item stays exactly when it fits them
      alone, and nothing is dropped when everything fits. */
  lemma PutKeepsLongest(items: seq<Item>, it: Item, maxItems: nat, maxBytes: nat)
    ensures var all, kept := items + [it], AfterPut(items, it, maxItems, maxBytes);
            && IsLongestKept(all, kept, maxItems, maxBytes)
            && (kept != [] <==> maxItems >= 1 && |it.data| <= maxBytes)
            && (kept != [] ==> kept[|kept| - 1] == it)
            && (|all| <= maxItems && DataBytes(all) <= maxBytes ==> kept == all)
  {
    var all := items + [it];
    DropExcessIsLeast(all, maxItems, maxBytes);
    assert all[|items|..] == [it] && all[0..] == all;
    OneItem(it);
    assert DataBytes([]) == 0;
    hide DropExcess, DataBytes;
  }

  lemma OneItem(it: Item)
    ensures DataBytes([it]) == |it.data|
  {
    assert [it][..0] == [];
  }

  /** Acknowledging removes exactly the items up to the number, which are the oldest ones. */
  lemma {:induction false} AckRestIsSuffix(items: seq<Item>, upTo: nat)
    requires Ordered(items)
    ensures var d := |items| - |AckRest(items, upTo)|;
      && 0 <= d && AckRest(items, upTo) == items[d..]
      && forall i :: 0 <= i < |items| ==> (items[i].num <= upTo <==> i < d)
    decreases |items|
  {
    if items != [] && items[0].num <= upTo {
      var rest := items[1..];
      assert Ordered(rest);
      AckRestIsSuffix(rest, upTo);
      var d := |items| - |AckRest(items, upTo)|;
      assert rest[d - 1..] == items[d..];
      forall i | 0 <= i < |items|
        ensures items[i].num <= upTo <==> i < d
      {
        if i > 0 {
          assert rest[i - 1] == items[i];
        }
      }
    }
  }

  lemma {:induction false} SplitIsAckRest(items: seq<Item>, upTo: nat, idx: nat)
    requires idx <= |items|
    requires forall i :: 0 <= i < |items| ==> (items[i].num <= upTo <==> i < idx)
    ensures AckRest(items, upTo) == items[idx..]
    decreases |items|
  {
    if idx > 0 {
      var rest := items[1..];
      assert forall i :: 0 <= i < |rest| ==> rest[i] == items[i + 1];
      SplitIsAckRest(rest, upTo, idx - 1);
      assert rest[idx - 1..] == items[idx..];
    }
  }

  function FileNames(items: seq<Item>): set<string> {
    set i | 0 <= i < |items| :: FileName(items[i].num)
  }

  predicate FilesThere(disk: Disk, items: seq<Item>) {
    forall i :: 0 <= i < |items| ==> FileName(items[i].num) in disk
  }

  /** The in-memory index is ordered, its byte count is right, and every message has a file. */
  predicate Consistent(disk: Disk, next: nat, items: seq<Item>, curBytes: int) {
    && Numbered(items)
    && Issued(items, next)
    && next < U64
    && curBytes == DataBytes(items)
    && FilesThere(disk, items)
  }

  predicate Issued(items: seq<Item>, next: nat) {
    forall i :: 0 <= i < |items| ==> 1 <= items[i].num <= next
  }

  lemma OrderAppend(next: nat, items: seq<Item>, it: Item)
    requires Numbered(items) && Issued(items, next) && it.num == next + 1 < U64
    ensures Numbered(items + [it]) && Issued(items + [it], next + 1)
  {
  }

  lemma SumsAppend(items: seq<Item>, it: Item)
    ensures DiskOf(items + [it]) == DiskOf(items)[FileName(it.num) := Encode(it.subject, it.data)]
    ensures DataBytes(items + [it]) == DataBytes(items) + |it.data|
  {
    assert (items + [it])[..|items|] == items;
  }

  lemma ConsistentAppend(disk: Disk, next: nat, items: seq<Item>, curBytes: int, it: Item)
    requires Consistent(disk, next, items, curBytes) && it.num == next + 1 < U64
    ensures Consistent(disk[FileName(it.num) := Encode(it.subject, it.data)], next + 1, items + [it],
                       curBytes + |it.data|)
  {
    hide FileName, Encode, DiskOf;
    OrderAppend(next, items, it);
    SumsAppend(items, it);
  }

  /** The next number's file is not among those of earlier messages. */
  lemma NewNameIsFree(items: seq<Item>, next: nat)
    requires Numbered(items) && Issued(items, next) && next + 1 < U64
    ensures FileName(next + 1) !in DiskOf(items)
  {
    hide FileName, DiskOf;
    DiskMatches(items);
    forall i | 0 <= i < |items|
      ensures FileName(items[i].num) != FileName(next + 1)
    {
      NameOrder(items[i].num, next + 1);
    }
  }

  lemma IssuedSuffix(next: nat, items: seq<Item>, d: nat)
    requires Numbered(items) && Issued(items, next) && d <= |items|
    ensures Numbered(items[d..]) && Issued(items[d..], next)
  {
    OrderedTail(items, d);
  }

  /** Removing one acknowledged file. */
  lemma FileRemoved(items: seq<Item>, i: nat)
    requires Numbered(items) && i < |items|
    ensures DiskOf(items[i + 1..]) == DiskOf(items[i..]) - {FileName(items[i].num)}
    ensures DataBytes(items[i + 1..]) == DataBytes(items[i..]) - |items[i].data|
  {
    OrderedTail(items, i);
    DiskTail(items[i..]);
    DataBytesTail(items[i..]);
    assert items[i..][1..] == items[i + 1..];
  }

  lemma FileNamesSnoc(items: seq<Item>, k: nat)
    requires k < |items|
    ensures FileNames(items[..k + 1]) == FileNames(items[..k]) + {FileName(items[k].num)}
  {
    hide FileName;
    var part := items[..k + 1];
    forall n
      ensures n in FileNames(part) <==> n in FileNames(items[..k]) + {FileName(items[k].num)}
    {
      if n in FileNames(part) {
        var i :| 0 <= i <= k && FileName(part[i].num) == n;
        assert i < k ==> items[..k][i] == part[i];
      }
      if n in FileNames(items[..k]) {
        var i :| 0 <= i < k && FileName(items[..k][i].num) == n;
        assert part[i] == items[..k][i];
      }
      assert part[k] == items[k];
    }
  }

  lemma FileNamesAppend(a: seq<Item>, b: seq<Item>)
    ensures FileNames(a + b) == FileNames(a) + FileNames(b)
  {
    hide FileName;
    forall n
      ensures n in FileNames(a + b) <==> n in FileNames(a) + FileNames(b)
    {
      if n in FileNames(a) {
        var i :| 0 <= i < |a| && FileName(a[i].num) == n;
        assert (a + b)[i] == a[i];
      }
      if n in FileNames(b) {
        var i :| 0 <= i < |b| && FileName(b[i].num) == n;
        assert (a + b)[|a| + i] == b[i];
      }
    }
  }

  lemma NoFiles(items: seq<Item>)
    ensures items[0..] == items && FileNames(items[..0]) == {}
  {
  }

  lemma NextNumber(disk: Disk, next: nat, items: seq<Item>, curBytes: int)
    requires Consistent(disk, next, items, curBytes)
    ensures next < U64 && Numbered(items) && Issued(items, next)
  {
  }

  /** Removing the files of the oldest messages leaves those of the others. */
  lemma OthersStay(disk: Disk, items: seq<Item>, d: nat)
    requires Numbered(items) && FilesThere(disk, items) && d <= |items|
    ensures FilesThere(disk - FileNames(items[..d]), items[d..])
  {
    hide FileName;
    forall j | d <= j < |items|
      ensures FileName(items[j].num) !in FileNames(items[..d])
    {
      forall i | 0 <= i < d
        ensures FileName(items[..d][i].num) != FileName(items[j].num)
      {
        NameOrder(items[i].num, items[j].num);
      }
    }
  }

  /** If the directory holds exactly the messages' files, it still does. */
  lemma {:induction false} MirrorDrops(items: seq<Item>, d: nat)
    requires Numbered(items) && d <= |items|
    ensures DiskOf(items) - FileNames(items[..d]) == DiskOf(items[d..])
  {
    hide FileName, DiskOf;
    if d == 0 {
      assert FileNames(items[..0]) == {} && items[0..] == items;
    } else {
      MirrorDrops(items, d - 1);
      FileNamesSnoc(items, d - 1);
      FileRemoved(items, d - 1);
    }
  }

  lemma SuffixConsistent(disk: Disk, next: nat, items: seq<Item>, curBytes: int, d: nat)
    requires Consistent(disk, next, items, curBytes) && d <= |items|
    ensures Consistent(disk - FileNames(items[..d]), next, items[d..], DataBytes(items[d..]))
  {
    hide FileName, DataBytes;
    IssuedSuffix(next, items, d);
    OthersStay(disk, items, d);
  }

  lemma SuffixStep(items: seq<Item>, d: nat)
    requires d < |items|
    ensures items[d..] != [] && items[d..][0] == items[d] && items[d..][1..] == items[d + 1..]
    ensures DataBytes(items[d + 1..]) == DataBytes(items[d..]) - |items[d].data|
  {
    DataBytesTail(items[d..]);
    assert items[d..][1..] == items[d + 1..];
  }

  /** Acknowledging the last of the first `k` items removes those `k`. */
  lemma AckOfPrefix(next: nat, items: seq<Item>, k: nat)
    requires Ordered(items) && Issued(items, next) && k <= |items|
    ensures AckRest(items, LastNum(items[..k])) == items[k..]
  {
    if k > 0 {
      assert items[..k][k - 1] == items[k - 1];
    }
    SplitIsAckRest(items, LastNum(items[..k]), k);
  }

  /** The binary search behind `AckThrough`. */
  method FirstAfter(items: seq<Item>, upTo: nat) returns (idx: nat)
    requires Ordered(items)
    ensures idx <= |items| && items[idx..] == AckRest(items, upTo)
  {
    idx := 0;
    var hi := |items|;
    while idx < hi
      invariant 0 <= idx <= hi <= |items|
      invariant forall i :: 0 <= i < idx ==> items[i].num <= upTo
      invariant forall i :: hi <= i < |items| ==> items[i].num > upTo
    {
      var mid := (idx + hi) / 2;
      if items[mid].num > upTo {
        hi := mid;
      } else {
        idx := mid + 1;
      }
    }
    SplitIsAckRest(items, upTo, idx);
  }

  /** What the consumer does with one item: the context is already cancelled, or `fn` fails, or it accepts. */
  datatype Reply = Cancelled | Rejected | Accepted

  /** The directory that completed `persist` calls leave for these messages, if all records fit. */
  ghost predicate LeftBy(left: seq<Item>, files: Disk) {
    Numbered(left) && AllFit(left) && files == DiskOf(left) && forall i :: 0 <= i < |left| ==> left[i].num >= 1
  }

  /** Reading the directory in name order gives back what was left. */
  lemma Reopened(left: seq<Item>, files: Disk, r: Outcome)
    requires LeftBy(left, files)
    requires forall names :: Sorted(files, names) ==> r == ReplayNames(files, names)
    ensures r == Replayed(Memory(left, DataBytes(left), LastNum(left)))
  {
    hide FileName, DiskOf, DataBytes;
    DiskMatches(left);
    NamesAreSorted(left);
    assert Sorted(DiskOf(left), Names(left));
    ReplayRestoresIffAllFit(left, Names(left));
  }

  /** Numbers start at 1, so no file that a queue has written has the number 0. */
  lemma OwnFilesAreNumbered(left: seq<Item>, files: Disk)
    requires LeftBy(left, files)
    ensures FileName(0) !in files
  {
    hide FileName, DiskOf;
    DiskMatches(left);
    forall i | 0 <= i < |left|
      ensures FileName(left[i].num) != FileName(0)
    {
      NameOrder(0, left[i].num);
    }
  }

  lemma LeftMirrors(left: seq<Item>, files: Disk)
    requires LeftBy(left, files)
    ensures files == DiskOf(left)
  {
  }

  lemma ReopenedIsConsistent(files: Disk, r: Outcome)
    requires FileName(0) !in files && r.Replayed?
    requires exists names :: Sorted(files, names) && r == ReplayNames(files, names)
    ensures Consistent(files, r.memory.next, r.memory.items, r.memory.curBytes)
  {
    hide FileName, DataBytes;
    var names :| Sorted(files, names) && r == ReplayNames(files, names);
    ReplayIsOrdered(files, names);
    hide ReplayNames;
    forall i | 0 <= i < |r.memory.items|
      ensures r.memory.items[i].num >= 1
    {
      assert FileName(r.memory.items[i].num) in files;
    }
  }

  class Queue {
    var disk: Disk
    var next: nat
    var items: seq<Item>
    var curBytes: int
    const maxItems: nat
    const maxBytes: nat

    ghost predicate Valid()
      reads this
    {
      Consistent(disk, next, items, curBytes)
    }

    /** The directory holds exactly the files of the pending messages. */
    predicate Mirrored()
      reads this
    {
      disk == DiskOf(items)
    }

    /** Opens a queue over a directory. `replay` panics on some files; short of that the queue is what
        reading the files in name order gives, whatever they hold, and over the files that completed
        `persist` calls left for messages that fit it is the queue of those messages. */
    constructor (files: Disk, maxItems: int, maxBytes: int)
      requires forall names :: Sorted(files, names) ==> ReplayNames(files, names).Replayed?
      ensures disk == files
      ensures forall names :: Sorted(files, names)
                ==> ReplayNames(files, names) == Replayed(Memory(items, curBytes, next))
      ensures FileName(0) !in files ==> Valid()
      ensures forall left :: LeftBy(left, files) ==> Valid() && Mirrored() && items == left && next == LastNum(left)
      ensures this.maxItems == if maxItems <= 0 then DEFAULT_MAX_ITEMS else maxItems
      ensures this.maxBytes == if maxBytes <= 0 then DEFAULT_MAX_BYTES else maxBytes
    {
      this.maxItems := if maxItems <= 0 then DEFAULT_MAX_ITEMS else maxItems;
      this.maxBytes := if maxBytes <= 0 then DEFAULT_MAX_BYTES else maxBytes;
      disk := files;
      next, items, curBytes := 0, [], 0;
      new;
      hide FileName, DiskOf, DataBytes, ReplayNames, Sorted, LeftBy, Consistent;
      var r := Replay(files);
      items, curBytes, next := r.memory.items, r.memory.curBytes, r.memory.next;
      if FileName(0) !in files {
        ReopenedIsConsistent(files, r);
      }
      forall left | LeftBy(left, files)
        ensures Valid() && Mirrored() && items == left && next == LastNum(left)
      {
        Reopened(left, files, r);
        OwnFilesAreNumbered(left, files);
        LeftMirrors(left, files);
      }
    }

    /** Drops the oldest items, with their files, while a cap is exceeded. */
    method DropExcessLocked()
      requires Valid()
      modifies this
      ensures Valid() && next == old(next)
      ensures items == DropExcess(old(items), maxItems, maxBytes) && |items| <= |old(items)|
      ensures disk == old(disk) - FileNames(old(items)[..|old(items)| - |items|])
      ensures old(Mirrored()) ==> Mirrored()
    {
      hide FileName, DiskOf, DataBytes, FileNames;
      ghost var d: nat := 0;
      NoFiles(items);
      while |items| > maxItems || curBytes > maxBytes
        invariant d <= |old(items)| && items == old(items)[d..] && next == old(next)
        invariant curBytes == DataBytes(items) && disk == old(disk) - FileNames(old(items)[..d])
        invariant DropExcess(items, maxItems, maxBytes) == DropExcess(old(items), maxItems, maxBytes)
        decreases |items|
      {
        if |items| == 0 {
          break;
        }
        var victim := items[0];
        SuffixStep(old(items), d);
        FileNamesSnoc(old(items), d);
        items := items[1..];
        curBytes := curBytes - |victim.data|;
        disk := disk - {FileName(victim.num)};
        d := d + 1;
      }
      SuffixConsistent(old(disk), next, old(items), old(curBytes), d);
      MirrorDrops(old(items), d);
    }

    /** Appends a message under the next number, then enforces the caps. The file is created exclusively:
        if that fails, or a file of that name is there already, nothing changes. */
    method Put(subject: Bytes, data: Bytes, createFails: bool) returns (num: Option<nat>)
      requires Valid() && next + 1 < U64
      modifies this
      ensures Valid()
      ensures num == None <==> createFails || FileName(old(next) + 1) in old(disk)
      ensures num == None ==> items == old(items) && next == old(next) && disk == old(disk)
      ensures num.Some? ==>
                var it := Item(old(next) + 1, subject, data); var all := old(items) + [it];
                && num == Some(next) && next == old(next) + 1
                && items == AfterPut(old(items), it, maxItems, maxBytes)
                && IsLongestKept(all, items, maxItems, maxBytes)
                && (maxItems >= 1 && |data| <= maxBytes ==> items != [] && items[|items| - 1] == it)
                && disk == old(disk)[FileName(next) := Encode(subject, data)] - FileNames(all[..|all| - |items|])
      ensures old(Mirrored()) ==> Mirrored() && (num == None <==> createFails)
    {
      hide FileName, DiskOf, DataBytes, FileNames, Encode, DropExcess, IsLongestKept;
      NewNameIsFree(items, next);
      NextNumber(disk, next, items, curBytes);
      hide Consistent;
      next := next + 1;
      if createFails || FileName(next) in disk {
        next := next - 1;
        num := None;
      } else {
        PutKeepsLongest(items, Item(next, subject, data), maxItems, maxBytes);
        Store(Item(next, subject, data));
        DropExcessLocked();
        num := Some(next);
      }
    }

    /** Writes the file of a freshly numbered message and indexes it. */
    method Store(it: Item)
      requires it.num == next >= 1 && Consistent(disk, next - 1, items, curBytes) && next < U64
      modifies this
      ensures Valid() && next == old(next) && items == old(items) + [it]
      ensures disk == old(disk)[FileName(it.num) := Encode(it.subject, it.data)]
      ensures old(Mirrored()) ==> Mirrored()
    {
      hide FileName, DiskOf, DataBytes, Encode;
      ConsistentAppend(disk, next - 1, items, curBytes, it);
      SumsAppend(items, it);
      disk := disk[FileName(it.num) := Encode(it.subject, it.data)];
      items := items + [it];
      curBytes := curBytes + |it.data|;
    }

    method Peek(n: int) returns (out: seq<Item>)
      ensures out == items[..PeekCount(n, |items|)]
      ensures out <= items && (|out| == |items| || |out| == if n <= 0 then 32 else n)
    {
      var m := if n <= 0 then 32 else n;
      if m > |items| {
        m := |items|;
      }
      out := items[..m];
    }

    method AckThrough(upTo: nat)
      requires Valid()
      modifies this
      ensures Valid() && next == old(next)
      ensures items == AckRest(old(items), upTo) && |items| <= |old(items)|
      ensures disk == old(disk) - FileNames(old(items)[..|old(items)| - |items|])
      ensures old(Mirrored()) ==> Mirrored()
    {
      hide FileName, DiskOf, DataBytes, FileNames;
      var idx := FirstAfter(items, upTo);
      NoFiles(items);
      for i := 0 to idx
        invariant items == old(items) && next == old(next)
        invariant curBytes == DataBytes(items[i..]) && disk == old(disk) - FileNames(items[..i])
      {
        SuffixStep(items, i);
        FileNamesSnoc(items, i);
        disk := disk - {FileName(items[i].num)};
        curBytes := curBytes - |items[i].data|;
      }
      SuffixConsistent(old(disk), next, items, old(curBytes), idx);
      MirrorDrops(items, idx);
      items := items[idx..];
    }

    /** Delivers pending items in order until `fn` (the i-th attempt is answered by `reply(i)`) fails or
        nothing is left. Alone on the queue it terminates, the accepted items are exactly the ones that
        leave it, oldest first, and an error-free return means an empty queue. */
    method Drain(reply: nat -> Reply) returns (ok: bool, delivered: seq<Item>)
      requires Valid()
      modifies this
      ensures Valid() && next == old(next)
      ensures |delivered| <= |old(items)|
      ensures delivered == old(items)[..|delivered|] && items == old(items)[|delivered|..]
      ensures disk == old(disk) - FileNames(delivered) && (old(Mirrored()) ==> Mirrored())
      ensures forall i :: 0 <= i < |delivered| ==> reply(i) == Accepted
      ensures ok <==> items == []
      ensures !ok ==> reply(|delivered|) != Accepted
    {
      hide FileName, DiskOf, DataBytes, AckRest, LastNum, FileNames;
      delivered := [];
      NoFiles(items);
      ghost var pending := items;
      while true
        invariant Valid() && next == old(next)
        invariant |delivered| <= |pending|
        invariant delivered == pending[..|delivered|] && items == pending[|delivered|..]
        invariant disk == old(disk) - FileNames(delivered) && (old(Mirrored()) ==> Mirrored())
        invariant forall i :: 0 <= i < |delivered| ==> reply(i) == Accepted
        decreases |items|
      {
        var batch := Peek(BATCH);
        if |batch| == 0 {
          return true, delivered;
        }
        var lastAck, count, stopped := DeliverBatch(batch, |delivered|, reply);
        AckOfPrefix(next, items, count);
        PrefixTake(batch, items, count);
        SliceStep(pending, |delivered|, count);
        FileNamesAppend(delivered, batch[..count]);
        AckThrough(lastAck);
        delivered := delivered + batch[..count];
        if stopped {
          return false, delivered;
        }
      }
    }
  }

  /** The loop over one batch: `count` items accepted, `lastAck` the number of the last of them. */
  method DeliverBatch(batch: seq<Item>, attempts: nat, reply: nat -> Reply)
    returns (lastAck: nat, count: nat, stopped: bool)
    ensures count <= |batch| && lastAck == LastNum(batch[..count])
    ensures forall i :: attempts <= i < attempts + count ==> reply(i) == Accepted
    ensures if stopped then count < |batch| && reply(attempts + count) != Accepted else count == |batch|
  {
    lastAck := 0;
    for k := 0 to |batch|
      invariant lastAck == LastNum(batch[..k])
      invariant forall i :: attempts <= i < attempts + k ==> reply(i) == Accepted
    {
      if reply(attempts + k) != Accepted {
        return lastAck, k, true;
      }
      lastAck := batch[k].num;
    }
    return lastAck, |batch|, false;
  }

  lemma PrefixTake<T>(p: seq<T>, s: seq<T>, k: nat)
    requires p <= s && k <= |p|
    ensures p[..k] == s[..k]
  {
  }

  lemma SliceStep<T>(s: seq<T>, n: nat, k: nat)
    requires n + k <= |s|
    ensures s[..n] + s[n..][..k] == s[..n + k] && s[n..][k..] == s[n + k..]
  {
  }
}

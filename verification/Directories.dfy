/**
  Directories on the disk (fs/dir.c:32-91, 117-389): each routine does to the list of live entries what
  module Directory says of a finite map from names to inodes.
 */
module Directories {
  import opened Outcomes
  import opened Bitmap
  import opened Bytes
  import opened Volume
  import opened Partitions
  import opened Directory

  // ---------- The list of a directory ----------

  function EntriesOf(v: Volume, i: nat, k: nat): seq<Entry> {
    if |BlockOf(v, i, k)| == SECTOR then Entries(BlockOf(v, i, k)) else []
  }

  /** The entries of blocks from..to-1, dead ones included. */
  ghost function Stretch(v: Volume, i: nat, from: nat, to: nat): seq<Entry>
    decreases to - from
  {
    if from >= to then [] else EntriesOf(v, i, from) + Stretch(v, i, from + 1, to)
  }

  ghost function Raw(v: Volume, i: nat): seq<Entry> {
    Stretch(v, i, 0, 12)
  }

  /** The directory: its live entries, in the order of blocks and slots. */
  ghost function Listing(v: Volume, i: nat): seq<Entry> {
    Alive(Raw(v, i))
  }

  lemma {:induction false} StretchSplit(v: Volume, i: nat, a: nat, b: nat, c: nat)
    requires a <= b <= c
    ensures Stretch(v, i, a, c) == Stretch(v, i, a, b) + Stretch(v, i, b, c)
    decreases b - a
  {
    if a < b {
      StretchSplit(v, i, a + 1, b, c);
    }
  }

  lemma {:induction false} StretchSame(v: Volume, r: Volume, i: nat, a: nat, b: nat)
    requires forall k :: a <= k < b ==> BlockOf(r, i, k) == BlockOf(v, i, k)
    ensures Stretch(r, i, a, b) == Stretch(v, i, a, b)
    decreases b - a
  {
    if a < b {
      StretchSame(v, r, i, a + 1, b);
    }
  }

  lemma StretchStep(v: Volume, i: nat, k: nat)
    requires k < 12
    ensures Stretch(v, i, k, 12) == EntriesOf(v, i, k) + Stretch(v, i, k + 1, 12)
    ensures Stretch(v, i, k, k) == []
  {}

  /** The listing, taken apart at block k. */
  lemma ListingAt(v: Volume, i: nat, k: nat)
    requires k < 12
    ensures Raw(v, i) == Stretch(v, i, 0, k) + EntriesOf(v, i, k) + Stretch(v, i, k + 1, 12)
    ensures Listing(v, i) == Alive(Stretch(v, i, 0, k)) + Alive(EntriesOf(v, i, k)) + Alive(Stretch(v, i, k + 1, 12))
  {
    StretchSplit(v, i, 0, k, 12);
    StretchStep(v, i, k);
    hide Stretch, EntriesOf, Alive;
    var p, b, s := Stretch(v, i, 0, k), EntriesOf(v, i, k), Stretch(v, i, k + 1, 12);
    Assoc(p, b, s);
    AliveConcat(p + b, s);
    AliveConcat(p, b);
  }

  // ---------- The invariant of a directory ----------

  predicate IsDot(e: Entry) {
    e.name == DOT || e.name == DOTDOT
  }

  predicate WellFormed(e: Entry) {
    GoodEntry(e) || e == Nothing
  }

  predicate AllWellFormed(s: seq<Entry>) {
    forall e {:trigger WellFormed(e)} :: e in s ==> WellFormed(e)
  }

  predicate NumbersDistinct(s: seq<Entry>) {
    forall j, k :: 0 <= j < k < |s| && !IsDot(s[j]) && !IsDot(s[k]) ==> s[j].iNo != s[k].iNo
  }

  /** The first block starts with "." and "..". */
  predicate Dots(b: seq<Entry>, i: nat) {
    |b| == PER_BLOCK && b[0] == Entry(DOT, i, DIRECTORY) && b[1].name == DOTDOT && b[1].ftype == DIRECTORY
  }

  ghost predicate DirOk(v: Volume, i: nat) {
    && i in v.nodes && |v.nodes[i].sectors| == 13 && v.nodes[i].sectors[0] != 0 && v.nodes[i].sectors[12] == 0
    && Dots(EntriesOf(v, i, 0), i)
    && AllWellFormed(Raw(v, i))
    && NamesDistinct(Listing(v, i)) && NumbersDistinct(Listing(v, i))
    && v.nodes[i].size == ENTRY * |Listing(v, i)|
  }

  /** A directory depends on its inode and its own blocks only. */
  lemma SameNodeSameDir(v: Volume, r: Volume, j: nat)
    requires SameNode(v, r, j) && DirOk(v, j)
    ensures DirOk(r, j) && Listing(r, j) == Listing(v, j)
  {
    hide Stretch, Alive, NamesDistinct, NumbersDistinct, Entries;
    StretchSame(v, r, j, 0, 12);
    assert BlockOf(r, j, 0) == BlockOf(v, j, 0);
  }

  /** The listing starts with the two dots. */
  lemma ListingStarts(v: Volume, i: nat)
    requires DirOk(v, i)
    ensures |Listing(v, i)| >= 2 && Listing(v, i)[0] == Entry(DOT, i, DIRECTORY)
    ensures |EntriesOf(v, i, 0)| >= 2 && Listing(v, i)[1] == EntriesOf(v, i, 0)[1] && Listing(v, i)[1].name == DOTDOT
  {
    ListingAt(v, i, 0);
    StretchStep(v, i, 0);
    var b, rest := EntriesOf(v, i, 0), Alive(Stretch(v, i, 1, 12));
    assert Alive([]) == [];
    TwoFirst(b);
    hide *;
    FirstOfConcat(Alive(b), rest);
  }

  lemma TwoFirst(b: seq<Entry>)
    requires |b| >= 2 && Live(b[0]) && Live(b[1])
    ensures |Alive(b)| >= 2 && Alive(b)[0] == b[0] && Alive(b)[1] == b[1]
  {
    assert b == [b[0]] + ([b[1]] + b[2..]);
    AliveCons(b[0], [b[1]] + b[2..]);
    AliveCons(b[1], b[2..]);
  }

  lemma FirstOfConcat(a: seq<Entry>, b: seq<Entry>)
    requires |a| >= 2
    ensures |[] + a + b| >= 2 && ([] + a + b)[0] == a[0] && ([] + a + b)[1] == a[1]
  {}

  lemma {:induction false} InStretch(v: Volume, i: nat, from: nat, to: nat, e: Entry)
    ensures e in Stretch(v, i, from, to) <==> (exists k: nat :: from <= k < to && e in EntriesOf(v, i, k))
    decreases if from < to then to - from else 0
  {
    hide EntriesOf;
    if from < to {
      InStretch(v, i, from + 1, to, e);
    }
  }

  lemma InEntries(v: Volume, i: nat, k: nat, e: Entry)
    ensures e in EntriesOf(v, i, k) <==> |BlockOf(v, i, k)| == 512 && exists j: nat :: j < 21 && EntryAt(BlockOf(v, i, k), j) == e
  {
    hide BlockOf, EntryAt;
    var b := BlockOf(v, i, k);
    if e in EntriesOf(v, i, k) {
      var j :| 0 <= j < |Entries(b)| && Entries(b)[j] == e;
      assert EntryAt(b, j) == e;
    }
    if |b| == 512 && exists j: nat :: j < 21 && EntryAt(b, j) == e {
      var j: nat :| j < 21 && EntryAt(b, j) == e;
      assert Entries(b)[j] == e;
    }
  }

  /** Slot j of block k of a directory holds entry e, and the slot is in use. */
  ghost predicate Holds(v: Volume, i: nat, k: nat, j: nat, e: Entry) {
    k < 12 && j < 21 && |BlockOf(v, i, k)| == 512 && EntryAt(BlockOf(v, i, k), j) == e && e.ftype != 0
  }

  /** The entries of a directory are those in its direct blocks whose type is not 0. */
  lemma EntriesAre(v: Volume, i: nat, e: Entry)
    ensures e in Listing(v, i) <==> exists k: nat, j: nat :: Holds(v, i, k, j, e)
  {
    InAlive(Raw(v, i), e);
    InStretch(v, i, 0, 12, e);
    hide BlockOf, EntryAt, Stretch, EntriesOf, Alive;
    if e in Listing(v, i) {
      var k: nat :| k < 12 && e in EntriesOf(v, i, k);
      InEntries(v, i, k, e);
      var j: nat :| j < 21 && EntryAt(BlockOf(v, i, k), j) == e;
      assert Holds(v, i, k, j, e);
    }
    if k: nat, j: nat :| Holds(v, i, k, j, e) {
      InEntries(v, i, k, e);
    }
  }

  // ---------- search_dir_entry ----------

  lemma {:induction false} LookupAlive(s: seq<Entry>, name: seq<byte>)
    requires name != [] && AllWellFormed(s)
    ensures Lookup(s, name) == Lookup(Alive(s), name)
  {
    if s != [] {
      assert s == [s[0]] + s[1..];
      assert WellFormed(s[0]);
      LookupAlive(s[1..], name);
      AliveCons(s[0], s[1..]);
      if Live(s[0]) {
        assert ([s[0]] + Alive(s[1..]))[1..] == Alive(s[1..]);
      } else {
        assert [] + Alive(s[1..]) == Alive(s[1..]);
      }
    }
  }

  /** One block is searched: the names are compared whether the entry is live or not. */
  method SearchBlock(es: seq<Entry>, name: seq<byte>) returns (r: Option<Entry>)
    ensures r == Lookup(es, name)
  {
    var j := 0;
    assert es[0..] == es;
    while j < |es|
      invariant 0 <= j <= |es| && Lookup(es, name) == Lookup(es[j..], name)
    {
      if es[j].name == name {
        return Some(es[j]);
      }
      assert es[j..][1..] == es[j + 1..];
      j := j + 1;
    }
    r := None;
  }

  /** search_dir_entry: the map's entry for the name, or nothing. */
  method SearchDirEntry(p: Partition, i: nat, name: seq<byte>) returns (r: Option<Entry>)
    requires p.Valid() && DirOk(p.View(), i) && GoodName(name)
    ensures r == Lookup(Listing(p.View(), i), name)
  {
    ghost var v := p.View();
    LookupAlive(Raw(v, i), name);
    var k := 0;
    while k < 12
      invariant 0 <= k <= 12 && Lookup(Raw(v, i), name) == Lookup(Stretch(v, i, k, 12), name)
    {
      LookupConcat(EntriesOf(v, i, k), Stretch(v, i, k + 1, 12), name);
      if p.nodes[i].sectors[k] != 0 {
        var buf := p.ReadBlock(i, k);
        var found := SearchBlock(Entries(buf), name);
        if found.Some? {
          return found;
        }
      }
      k := k + 1;
    }
    r := None;
  }

  // ---------- One block changes ----------

  /** Block k of inode i had the live entries before + after, and has before + [e] + after now; the
      other blocks are the same. */
  ghost predicate Differ(v: Volume, r: Volume, i: nat, k: nat, before: seq<Entry>, e: Entry, after: seq<Entry>) {
    && k < 12
    && (forall m {:trigger BlockOf(r, i, m)} :: 0 <= m < 12 && m != k ==> BlockOf(r, i, m) == BlockOf(v, i, m))
    && Alive(EntriesOf(v, i, k)) == before + after && Alive(EntriesOf(r, i, k)) == before + [e] + after
  }

  /** The same, said of the whole listing. */
  lemma ListingDiffers(v: Volume, r: Volume, i: nat, k: nat, before: seq<Entry>, e: Entry, after: seq<Entry>)
    returns (a: seq<Entry>, b: seq<Entry>)
    requires Differ(v, r, i, k, before, e, after)
    ensures Listing(v, i) == a + b && Listing(r, i) == a + [e] + b
    ensures Raw(v, i) == Stretch(v, i, 0, k) + EntriesOf(v, i, k) + Stretch(v, i, k + 1, 12)
    ensures Raw(r, i) == Stretch(v, i, 0, k) + EntriesOf(r, i, k) + Stretch(v, i, k + 1, 12)
  {
    StretchSame(v, r, i, 0, k);
    StretchSame(v, r, i, k + 1, 12);
    ListingAt(v, i, k);
    ListingAt(r, i, k);
    hide Stretch, Listing, Raw, Alive, EntriesOf;
    var p, s := Alive(Stretch(v, i, 0, k)), Alive(Stretch(v, i, k + 1, 12));
    a, b := p + before, after + s;
    Regroup(p, before, e, after, s);
  }

  lemma Regroup(p: seq<Entry>, x: seq<Entry>, e: Entry, y: seq<Entry>, s: seq<Entry>)
    ensures p + (x + y) + s == (p + x) + (y + s)
    ensures p + (x + [e] + y) + s == (p + x) + [e] + (y + s)
  {}

  /** The directory v with an entry for a new name and a new inode is again a directory. */
  lemma InsertKeepsDir(v: Volume, r: Volume, i: nat, k: nat, before: seq<Entry>, e: Entry, after: seq<Entry>)
    requires DirOk(v, i) && Differ(v, r, i, k, before, e, after) && GoodEntry(e)
    requires Lookup(Listing(v, i), e.name).None? && NewNumber(Listing(v, i), e.iNo)
    requires i in r.nodes && |r.nodes[i].sectors| == 13 && r.nodes[i].sectors[0] != 0 && r.nodes[i].sectors[12] == 0
    requires r.nodes[i].size == v.nodes[i].size + ENTRY && Dots(EntriesOf(r, i, 0), i)
    requires AllWellFormed(EntriesOf(r, i, k))
    ensures DirOk(r, i) && exists a, b :: Inserts(v, r, i, a, e, b)
  {
    var a, b := ListingDiffers(v, r, i, k, before, e, after);
    hide Stretch, EntriesOf, Listing, Raw, Alive, Dots, NamesDistinct, NumbersDistinct, AllWellFormed, Lookup, NewNumber;
    LookupInsert(a, e, b, e.name);
    NumbersInsert(a, e, b);
    MiddleWellFormed(Stretch(v, i, 0, k), EntriesOf(v, i, k), EntriesOf(r, i, k), Stretch(v, i, k + 1, 12));
    assert |a + [e] + b| == |a + b| + 1;
    assert Inserts(v, r, i, a, e, b);
  }

  /** e stands between a and b in the listing of r, and the listing of v is the rest. */
  ghost predicate Inserts(v: Volume, r: Volume, i: nat, a: seq<Entry>, e: Entry, b: seq<Entry>) {
    Listing(v, i) == a + b && Listing(r, i) == a + [e] + b
  }

  lemma MiddleWellFormed(p: seq<Entry>, was: seq<Entry>, now: seq<Entry>, s: seq<Entry>)
    requires AllWellFormed(p + was + s) && AllWellFormed(now)
    ensures AllWellFormed(p + now + s)
  {
    forall x | x in p + now + s
      ensures WellFormed(x)
    {
      assert x in now || x in p + was + s;
    }
  }

  predicate NewNumber(s: seq<Entry>, iNo: nat) {
    forall e :: e in s && !IsDot(e) ==> e.iNo != iNo
  }

  lemma NumbersInsert(a: seq<Entry>, e: Entry, b: seq<Entry>)
    requires NumbersDistinct(a + b) && NewNumber(a + b, e.iNo)
    ensures NumbersDistinct(a + [e] + b)
  {
    var s, r := a + b, a + [e] + b;
    forall j: nat, k: nat | j < k < |r| && !IsDot(r[j]) && !IsDot(r[k])
      ensures r[j].iNo != r[k].iNo
    {
      if j != |a| {
        AroundAt(a, e, b, j);
        assert r[j] in s;
      }
      if k != |a| {
        AroundAt(a, e, b, k);
        assert r[k] in s;
      }
    }
  }

  /** The directory v without the entry e is again a directory. */
  lemma DeleteKeepsDir(v: Volume, r: Volume, i: nat, k: nat, before: seq<Entry>, e: Entry, after: seq<Entry>)
    requires DirOk(v, i) && Differ(r, v, i, k, before, e, after)
    requires i in r.nodes && |r.nodes[i].sectors| == 13 && r.nodes[i].sectors[0] != 0 && r.nodes[i].sectors[12] == 0
    requires v.nodes[i].size == r.nodes[i].size + ENTRY && Dots(EntriesOf(r, i, 0), i)
    requires AllWellFormed(EntriesOf(r, i, k))
    ensures DirOk(r, i) && exists a, b :: Inserts(r, v, i, a, e, b)
  {
    var a, b := ListingDiffers(r, v, i, k, before, e, after);
    StretchSame(r, v, i, 0, k);
    StretchSame(r, v, i, k + 1, 12);
    hide Stretch, EntriesOf, Listing, Raw, Alive, Dots, NamesDistinct, NumbersDistinct, AllWellFormed, Lookup;
    LookupDelete(a, e, b, e.name);
    NumbersDelete(a, e, b);
    MiddleWellFormed(Stretch(r, i, 0, k), EntriesOf(v, i, k), EntriesOf(r, i, k), Stretch(r, i, k + 1, 12));
    assert |a + [e] + b| == |a + b| + 1;
    assert Inserts(r, v, i, a, e, b);
  }

  lemma NumbersDelete(a: seq<Entry>, e: Entry, b: seq<Entry>)
    requires NumbersDistinct(a + [e] + b)
    ensures NumbersDistinct(a + b)
  {
    var s, r := a + [e] + b, a + b;
    forall j: nat, k: nat | j < k < |r| && !IsDot(r[j]) && !IsDot(r[k])
      ensures r[j].iNo != r[k].iNo
    {
      AroundAt(a, e, b, if j < |a| then j else j + 1);
      AroundAt(a, e, b, if k < |a| then k else k + 1);
    }
  }

  // ---------- sync_dir_entry ----------

  /** Block k has no block of its own, or a slot that is not in use. */
  ghost predicate HasGap(v: Volume, i: nat, k: nat)
    requires i in v.nodes && k < |v.nodes[i].sectors|
  {
    v.nodes[i].sectors[k] == 0 || exists j :: 0 <= j < |EntriesOf(v, i, k)| && !Live(EntriesOf(v, i, k)[j])
  }

  /** There is room for one more entry in the direct blocks. */
  ghost predicate HasRoom(v: Volume, i: nat)
    requires i in v.nodes && |v.nodes[i].sectors| == 13
  {
    exists k: nat :: k < 12 && HasGap(v, i, k)
  }

  /** The first slot that is not in use. */
  method FindUnused(es: seq<Entry>) returns (r: Option<nat>)
    ensures r.Some? ==> r.value < |es| && !Live(es[r.value]) && forall j :: 0 <= j < r.value ==> Live(es[j])
    ensures r.None? ==> forall j :: 0 <= j < |es| ==> Live(es[j])
  {
    var j := 0;
    while j < |es|
      invariant 0 <= j <= |es| && forall m :: 0 <= m < j ==> Live(es[m])
    {
      if es[j].ftype == UNKNOWN {
        return Some(j);
      }
      j := j + 1;
    }
    r := None;
  }

  /** r is v with slot j of block k of inode i replaced by e, and another size. */
  ghost predicate SlotSet(v: Volume, r: Volume, i: nat, k: nat, j: nat, e: Entry) {
    && k < 12 && j < |EntriesOf(v, i, k)| && EntriesOf(r, i, k) == EntriesOf(v, i, k)[j := e]
    && (forall m {:trigger BlockOf(r, i, m)} :: 0 <= m < 12 && m != k ==> BlockOf(r, i, m) == BlockOf(v, i, m))
    && i in v.nodes && i in r.nodes && r.nodes[i].sectors == v.nodes[i].sectors
  }

  lemma PatchSets(v: Volume, t: Volume, i: nat, k: nat, j: nat, data: seq<byte>, size: nat)
    requires i in v.nodes && k < 12 && j < PER_BLOCK && |data| == ENTRY && |BlockOf(v, i, k)| == SECTOR
    requires WrittenTo(v, t, i, k, Patch(BlockOf(v, i, k), ENTRY * j, data))
    ensures SlotSet(v, Resize(t, i, size), i, k, j, Decode(data))
  {
    var r := Resize(t, i, size);
    ResizeIsLocal(t, i, size);
    PatchEntries(BlockOf(v, i, k), j, data);
    assert BlockOf(r, i, k) == BlockOf(t, i, k);
    hide Entries;
    forall m: nat | m < 12 && m != k
      ensures BlockOf(r, i, m) == BlockOf(v, i, m)
    {
      assert BlockOf(t, i, m) == BlockOf(v, i, m);
    }
  }

  /** A dead slot comes to life. */
  lemma SlotDiffers(v: Volume, r: Volume, i: nat, k: nat, j: nat, e: Entry) returns (x: seq<Entry>, y: seq<Entry>)
    requires SlotSet(v, r, i, k, j, e) && Live(e) && !Live(EntriesOf(v, i, k)[j])
    ensures Differ(v, r, i, k, x, e, y)
  {
    hide Alive, EntriesOf, BlockOf;
    x, y := DeadAndLive(EntriesOf(v, i, k), EntriesOf(r, i, k), j, e);
  }

  /** The dots stay: they are live, and one slot only changes. */
  lemma DotsStay(v: Volume, r: Volume, i: nat, k: nat, j: nat, e: Entry)
    requires SlotSet(v, r, i, k, j, e) && Dots(EntriesOf(v, i, 0), i) && !(k == 0 && j < 2)
    ensures Dots(EntriesOf(r, i, 0), i)
  {
    hide Entries;
    assert k != 0 ==> BlockOf(r, i, 0) == BlockOf(v, i, 0);
  }

  lemma SlotFacts(v: Volume, r: Volume, i: nat, k: nat, j: nat, e: Entry)
    requires SlotSet(v, r, i, k, j, e)
    ensures k < 12 && j < |EntriesOf(v, i, k)| && EntriesOf(r, i, k) == EntriesOf(v, i, k)[j := e]
    ensures i in v.nodes && i in r.nodes && r.nodes[i].sectors == v.nodes[i].sectors
    ensures GoodEntry(e) ==> WellFormed(e) && Live(e)
    ensures Dots(EntriesOf(v, i, 0), i) && !Live(EntriesOf(v, i, k)[j]) ==> !(k == 0 && j < 2)
  {}

  /** The new entry goes into slot j of block k. */
  lemma SlotInserted(v: Volume, r: Volume, i: nat, k: nat, j: nat, e: Entry)
    requires DirOk(v, i) && SlotSet(v, r, i, k, j, e) && GoodEntry(e) && !Live(EntriesOf(v, i, k)[j])
    requires Lookup(Listing(v, i), e.name).None? && NewNumber(Listing(v, i), e.iNo)
    requires r.nodes[i].size == v.nodes[i].size + ENTRY
    ensures DirOk(r, i) && exists a, b :: Inserts(v, r, i, a, e, b)
  {
    hide *;
    DirFacts(v, i);
    SlotFacts(v, r, i, k, j, e);
    UpdateWellFormed(v, i, k, j, e);
    DotsStay(v, r, i, k, j, e);
    var x, y := SlotDiffers(v, r, i, k, j, e);
    InsertKeepsDir(v, r, i, k, x, e, y);
  }

  lemma UpdateWellFormed(v: Volume, i: nat, k: nat, j: nat, e: Entry)
    requires DirOk(v, i) && k < 12 && j < |EntriesOf(v, i, k)| && WellFormed(e)
    ensures AllWellFormed(EntriesOf(v, i, k)[j := e])
  {
    ListingAt(v, i, k);
    forall x | x in EntriesOf(v, i, k)[j := e]
      ensures WellFormed(x)
    {
      assert x == e || x in EntriesOf(v, i, k);
      assert x != e ==> x in Raw(v, i);
    }
  }

  lemma {:induction false} AliveNothing(s: seq<Entry>)
    requires forall j :: 0 <= j < |s| ==> s[j] == Nothing
    ensures Alive(s) == []
  {
    if s != [] {
      AliveNothing(s[1..]);
      assert [] + Alive(s[1..]) == [];
    }
  }

  /** A fresh block holds the entry and nothing else. */
  lemma FreshBlock(e: Entry)
    requires GoodEntry(e)
    ensures var es := Entries(Patch(Zeros(SECTOR), 0, Encode(e)));
            Alive(es) == [e] && AllWellFormed(es)
  {
    var zs := Entries(Zeros(SECTOR));
    PatchEntries(Zeros(SECTOR), 0, Encode(e));
    RoundTrip(e);
    forall j: nat | j < PER_BLOCK
      ensures zs[j] == Nothing
    {
      ZeroBlock(j);
    }
    hide Entries, Encode, Alive;
    OneEntry(zs, e);
  }

  lemma OneEntry(zs: seq<Entry>, e: Entry)
    requires zs != [] && GoodEntry(e) && forall j :: 0 <= j < |zs| ==> zs[j] == Nothing
    ensures Alive(zs[0 := e]) == [e] && AllWellFormed(zs[0 := e])
  {
    AliveNothing(zs[1..]);
    AliveCons(e, zs[1..]);
    assert zs[0 := e] == [e] + zs[1..];
  }

  /** The new entry goes into a new block k. */
  lemma BlockInserted(v: Volume, t: Volume, u: Volume, i: nat, k: nat, e: Entry)
    requires DirOk(v, i) && 0 < k < 12 && v.nodes[i].sectors[k] == 0 && GoodEntry(e)
    requires Lookup(Listing(v, i), e.name).None? && NewNumber(Listing(v, i), e.iNo)
    requires i in t.nodes && t.nodes[i].size == v.nodes[i].size && |t.nodes[i].sectors| == 13
    requires forall m :: 0 <= m < 13 && m != k ==> t.nodes[i].sectors[m] == v.nodes[i].sectors[m]
    requires forall m :: 0 <= m < 13 && m != k ==> BlockOf(t, i, m) == BlockOf(v, i, m)
    requires WrittenTo(t, u, i, k, Patch(Zeros(SECTOR), 0, Encode(e)))
    ensures var r := Resize(u, i, v.nodes[i].size + ENTRY); DirOk(r, i) && exists a, b :: Inserts(v, r, i, a, e, b)
  {
    var r := Resize(u, i, v.nodes[i].size + ENTRY);
    FreshBlock(e);
    ResizeIsLocal(u, i, v.nodes[i].size + ENTRY);
    assert BlockOf(r, i, k) == BlockOf(u, i, k);
    BlockDiffers(v, t, u, r, i, k, e);
    hide Listing, EntriesOf, Entries, Differ, AllWellFormed, NewNumber, Lookup, NamesDistinct, NumbersDistinct, BlockOf, Alive, Dots;
    InsertKeepsDir(v, r, i, k, [], e, []);
  }

  lemma BlockDiffers(v: Volume, t: Volume, u: Volume, r: Volume, i: nat, k: nat, e: Entry)
    requires 0 < k < 12 && i in v.nodes && |v.nodes[i].sectors| == 13 && v.nodes[i].sectors[k] == 0 && Dots(EntriesOf(v, i, 0), i)
    requires forall m :: 0 <= m < 13 && m != k ==> BlockOf(t, i, m) == BlockOf(v, i, m)
    requires GoodEntry(e) && WrittenTo(t, u, i, k, Patch(Zeros(SECTOR), 0, Encode(e)))
    requires forall m :: 0 <= m < 13 ==> BlockOf(r, i, m) == BlockOf(u, i, m)
    ensures Differ(v, r, i, k, [], e, []) && AllWellFormed(EntriesOf(r, i, k)) && Dots(EntriesOf(r, i, 0), i)
  {
    FreshBlock(e);
    hide Entries;
    assert BlockOf(r, i, k) == Patch(Zeros(SECTOR), 0, Encode(e));
    forall m: nat | m < 12 && m != k
      ensures BlockOf(r, i, m) == BlockOf(v, i, m)
    {
      assert BlockOf(u, i, m) == BlockOf(t, i, m);
    }
    assert EntriesOf(v, i, k) == [] && Alive([]) == [];
    assert [] + [e] + [] == [e];
  }

  /** Every block after the first holds a live entry, so that an empty directory has one block. */
  ghost predicate Populated(v: Volume, i: nat) {
    forall k {:trigger EntriesOf(v, i, k)} :: 0 < k < 12 && i in v.nodes && k < |v.nodes[i].sectors| && v.nodes[i].sectors[k] != 0 ==>
      Alive(EntriesOf(v, i, k)) != []
  }

  /** When block k still holds a live entry, or is gone, the directory stays populated. */
  lemma StaysPopulated(v: Volume, r: Volume, i: nat, k: nat)
    requires Populated(v, i) && i in v.nodes && i in r.nodes && |v.nodes[i].sectors| == |r.nodes[i].sectors| == 13
    requires forall m {:trigger BlockOf(r, i, m)} :: 0 <= m < 12 && m != k ==> BlockOf(r, i, m) == BlockOf(v, i, m)
    requires forall m :: 0 <= m < 12 && m != k ==> r.nodes[i].sectors[m] == v.nodes[i].sectors[m]
    requires 0 < k < 12 && r.nodes[i].sectors[k] != 0 ==> Alive(EntriesOf(r, i, k)) != []
    ensures Populated(r, i)
  {
    hide Alive, Entries;
    forall m: nat | 0 < m < 12 && r.nodes[i].sectors[m] != 0
      ensures Alive(EntriesOf(r, i, m)) != []
    {
      if m != k {
        assert BlockOf(r, i, m) == BlockOf(v, i, m);
        assert EntriesOf(r, i, m) == EntriesOf(v, i, m);
      }
    }
  }

  lemma AliveHas(s: seq<Entry>, j: nat)
    requires j < |s| && Live(s[j])
    ensures Alive(s) != []
  {
    InAlive(s, s[j]);
  }

  /** The address of the first block. */
  function FirstSector(v: Volume, i: nat): nat {
    if i in v.nodes && |v.nodes[i].sectors| > 0 then v.nodes[i].sectors[0] else 0
  }

  /** What sync_dir_entry promises: the entry stands somewhere in the listing, and nothing else has
      changed; the inode is still to be written back. */
  ghost predicate EntryAdded(v: Volume, r: Volume, i: nat, e: Entry) {
    && Inv(r) && r.diskBits == r.bits && Only(v, r, i) && r.table == v.table && DirOk(r, i) && (Populated(v, i) ==> Populated(r, i))
    && FirstSector(r, i) == FirstSector(v, i)
    && exists a, b :: Inserts(v, r, i, a, e, b)
  }

  /** A slot of a block is written over, and i_size changes. */
  method ReplaceSlot(p: Partition, i: nat, k: nat, j: nat, data: seq<byte>, size: nat)
    requires p.Valid() && i in p.nodes && |p.nodes[i].sectors| == 13 && k < 12 && p.nodes[i].sectors[k] != 0
    requires j < PER_BLOCK && |data| == ENTRY
    modifies p`blocks, p`nodes
    ensures p.Valid() && i in p.nodes && SlotSet(old(p.View()), p.View(), i, k, j, Decode(data)) && p.nodes[i].size == size
    ensures FirstSector(p.View(), i) == FirstSector(old(p.View()), i)
    ensures Only(old(p.View()), p.View(), i) && p.table == old(p.table) && p.bits == old(p.bits) && p.diskBits == old(p.diskBits)
  {
    ghost var v := p.View();
    var ioBuf := p.ReadBlock(i, k);
    hide Inv, Entries, SlotOk, BlockOf, Only;
    p.WriteBlock(i, k, Patch(ioBuf, ENTRY * j, data));
    ghost var t := p.View();
    p.SetSize(i, size);
    PatchSets(v, t, i, k, j, data, size);
    ResizeIsLocal(t, i, size);
    OnlyTransitive(v, t, p.View(), i);
  }

  method AddToBlock(p: Partition, i: nat, k: nat, j: nat, e: Entry)
    requires p.Valid() && DirOk(p.View(), i) && p.diskBits == p.bits && GoodEntry(e)
    requires k < 12 && p.nodes[i].sectors[k] != 0 && j < |EntriesOf(p.View(), i, k)| && !Live(EntriesOf(p.View(), i, k)[j])
    requires Lookup(Listing(p.View(), i), e.name).None? && NewNumber(Listing(p.View(), i), e.iNo)
    modifies p`blocks, p`nodes
    ensures p.Valid() && EntryAdded(old(p.View()), p.View(), i, e)
  {
    ghost var v := p.View();
    assert i in v.nodes && |v.nodes[i].sectors| == 13;
    hide Inv, DirOk, Listing, NewNumber, Lookup, Entries, Only, SlotSet, Encode, Decode;
    RoundTrip(e);
    ReplaceSlot(p, i, k, j, Encode(e), p.nodes[i].size + ENTRY);
    SlotInserted(v, p.View(), i, k, j, e);
    if Populated(v, i) {
      SlotPopulated(v, p.View(), i, k, j, e);
    }
  }

  lemma SlotPopulated(v: Volume, r: Volume, i: nat, k: nat, j: nat, e: Entry)
    requires SlotSet(v, r, i, k, j, e) && Populated(v, i) && i in v.nodes && |v.nodes[i].sectors| == 13
    requires k == 0 || Alive(EntriesOf(v, i, k)[j := e]) != [] || Live(e)
    ensures Populated(r, i)
  {
    hide Alive, Entries, BlockOf, EntriesOf, Populated;
    if Live(e) {
      AliveHas(EntriesOf(r, i, k), j);
    }
    StaysPopulated(v, r, i, k);
  }

  /** A missing block is allocated and filled, and i_size changes. */
  method NewBlock(p: Partition, i: nat, k: nat, data: seq<byte>, size: nat) returns (ok: bool, ghost t: Volume, ghost u: Volume)
    requires p.Valid() && i in p.nodes && |p.nodes[i].sectors| == 13 && 0 < k < 12 && p.nodes[i].sectors[k] == 0
    requires p.diskBits == p.bits && |data| == BLOCK
    modifies p`blocks, p`bits, p`diskBits, p`nodes, p`owner, p`stopped
    ensures p.Valid() && p.diskBits == p.bits && (ok <==> FreeCount(old(p.bits)) > 0) && p.stopped == (old(p.stopped) || !ok)
    ensures !ok ==> p.View() == old(p.View())
    ensures ok ==> Only(old(p.View()), p.View(), i) && p.table == old(p.table) && FreeCount(p.bits) == FreeCount(old(p.bits)) - 1
    ensures ok ==> i in old(p.nodes) && i in t.nodes && i in u.nodes && t.nodes[i].size == old(p.nodes)[i].size && |t.nodes[i].sectors| == 13
    ensures ok ==> forall m :: 0 <= m < 13 && m != k ==> t.nodes[i].sectors[m] == old(p.nodes)[i].sectors[m]
    ensures ok ==> forall m :: 0 <= m < 13 && m != k ==> BlockOf(t, i, m) == BlockOf(old(p.View()), i, m)
    ensures ok ==> WrittenTo(t, u, i, k, data) && p.View() == Resize(u, i, size) && FirstSector(p.View(), i) == FirstSector(old(p.View()), i)
  {
    ghost var v := p.View();
    FreeCountZeroIff(p.bits);
    if FreeCount(p.bits) > 0 {
      TakeIsLocal(v, i, k, FirstFree(p.bits).value);
      TakeKeepsInv(v, i, k, FirstFree(p.bits).value);
    }
    assert p.dataStart > 0;
    hide Inv, BitmapSync, BlockOf, Only, Fit, FreeCount;
    var lba := p.BlockAllocFor(i, k);
    t, u := v, v;
    if lba == None {
      return false, t, u;
    }
    t := p.View();
    p.WriteBlock(i, k, data);
    u := p.View();
    p.SetSize(i, size);
    ResizeIsLocal(u, i, size);
    OnlyTransitive(v, t, u, i);
    OnlyTransitive(v, u, p.View(), i);
    ok := true;
  }

  method AddBlock(p: Partition, i: nat, k: nat, e: Entry) returns (ok: bool)
    requires p.Valid() && DirOk(p.View(), i) && p.diskBits == p.bits && GoodEntry(e)
    requires 0 < k < 12 && p.nodes[i].sectors[k] == 0
    requires Lookup(Listing(p.View(), i), e.name).None? && NewNumber(Listing(p.View(), i), e.iNo)
    modifies p`blocks, p`bits, p`diskBits, p`nodes, p`owner, p`stopped
    ensures p.Valid() && ok == (FreeCount(old(p.bits)) > 0) && p.stopped == (old(p.stopped) || !ok)
    ensures if ok then EntryAdded(old(p.View()), p.View(), i, e) else p.View() == old(p.View())
    ensures FreeCount(p.bits) + 1 >= FreeCount(old(p.bits))
  {
    ghost var v := p.View();
    assert i in v.nodes && |v.nodes[i].sectors| == 13;
    hide Inv, DirOk, Listing, NewNumber, Lookup, Entries, Only, WrittenTo, Encode, BlockOf, Fit, FreeCount;
    ghost var t, u;
    ok, t, u := NewBlock(p, i, k, Patch(Zeros(SECTOR), 0, Encode(e)), p.nodes[i].size + ENTRY);
    if ok {
      BlockInserted(v, t, u, i, k, e);
      if Populated(v, i) {
        BlockPopulated(v, t, u, p.View(), i, k, e);
      }
    }
  }

  lemma BlockPopulated(v: Volume, t: Volume, u: Volume, r: Volume, i: nat, k: nat, e: Entry)
    requires Populated(v, i) && i in v.nodes && |v.nodes[i].sectors| == 13 && GoodEntry(e) && k < 12
    requires i in t.nodes && i in u.nodes && |t.nodes[i].sectors| == 13
    requires forall m :: 0 <= m < 13 && m != k ==> t.nodes[i].sectors[m] == v.nodes[i].sectors[m]
    requires forall m :: 0 <= m < 13 && m != k ==> BlockOf(t, i, m) == BlockOf(v, i, m)
    requires WrittenTo(t, u, i, k, Patch(Zeros(SECTOR), 0, Encode(e))) && r == Resize(u, i, v.nodes[i].size + ENTRY)
    ensures Populated(r, i)
  {
    FreshBlock(e);
    ResizeIsLocal(u, i, v.nodes[i].size + ENTRY);
    hide Alive, Entries, Populated, Encode, BlockOf;
    assert BlockOf(r, i, k) == BlockOf(u, i, k);
    forall m: nat | m < 12 && m != k
      ensures BlockOf(r, i, m) == BlockOf(v, i, m)
    {
      assert BlockOf(u, i, m) == BlockOf(t, i, m);
    }
    StaysPopulated(v, r, i, k);
  }

  /** The first gap is a missing block, so that the entry needs a new one. */
  ghost predicate NeedsBlock(v: Volume, i: nat)
    requires i in v.nodes && |v.nodes[i].sectors| == 13
  {
    exists k: nat :: FirstGap(v, i, k) && v.nodes[i].sectors[k] == 0
  }

  ghost predicate FirstGap(v: Volume, i: nat, k: nat)
    requires i in v.nodes && |v.nodes[i].sectors| == 13
  {
    k < 12 && HasGap(v, i, k) && forall m :: 0 <= m < k ==> !HasGap(v, i, m)
  }

  /** One turn of the loop of sync_dir_entry: the entry goes into block k if there is a gap. */
  method TryBlock(p: Partition, i: nat, k: nat, e: Entry) returns (done: bool, ok: bool)
    requires p.Valid() && DirOk(p.View(), i) && p.diskBits == p.bits && GoodEntry(e) && k < 12
    requires Lookup(Listing(p.View(), i), e.name).None? && NewNumber(Listing(p.View(), i), e.iNo)
    modifies p`blocks, p`bits, p`diskBits, p`nodes, p`owner, p`stopped
    ensures p.Valid() && i in old(p.nodes) && |old(p.nodes)[i].sectors| == 13 && done == HasGap(old(p.View()), i, k)
    ensures !done || !ok ==> p.View() == old(p.View()) && p.bits == old(p.bits) && p.diskBits == old(p.diskBits)
    ensures done ==> (ok <==> old(p.nodes)[i].sectors[k] != 0 || FreeCount(old(p.bits)) > 0)
    ensures done && ok ==> EntryAdded(old(p.View()), p.View(), i, e)
    ensures p.stopped == (old(p.stopped) || (done && !ok)) && FreeCount(p.bits) + 1 >= FreeCount(old(p.bits))
  {
    hide Inv, DirOk, Listing, NewNumber, Lookup, EntryAdded, BlockOf, FreeCount, HasGap, EntriesOf, GoodEntry;
    ghost var v := p.View();
    DirShape(v, i);
    if p.nodes[i].sectors[k] == 0 {
      DotsFirst(v, i, k);
      ok := AddBlock(p, i, k, e);
      return true, ok;
    }
    var ioBuf := p.ReadBlock(i, k);
    BlockIsHere(v, i, k, ioBuf);
    hide Entries;
    var j := FindUnused(Entries(ioBuf));
    GapIff(v, i, k, j);
    if j.Some? {
      AddToBlock(p, i, k, j.value, e);
      return true, true;
    }
    done, ok := false, false;
  }

  lemma DotsFirst(v: Volume, i: nat, k: nat)
    requires DirOk(v, i) && k < 12 && i in v.nodes && k < |v.nodes[i].sectors| && v.nodes[i].sectors[k] == 0
    ensures k > 0 && HasGap(v, i, k)
  {
    hide EntriesOf, AllWellFormed, NamesDistinct, NumbersDistinct, Raw, Listing, Alive, Dots;
  }

  lemma GapIff(v: Volume, i: nat, k: nat, j: Option<nat>)
    requires i in v.nodes && k < |v.nodes[i].sectors| && v.nodes[i].sectors[k] != 0
    requires j.Some? ==> j.value < |EntriesOf(v, i, k)| && !Live(EntriesOf(v, i, k)[j.value])
    requires j.None? ==> forall m :: 0 <= m < |EntriesOf(v, i, k)| ==> Live(EntriesOf(v, i, k)[m])
    ensures HasGap(v, i, k) <==> j.Some?
  {
    hide EntriesOf;
  }

  /** sync_dir_entry, within the direct blocks. It fails exactly when a block is needed and none is free,
      and then nothing has changed; a kernel built with ASSERTs has stopped in bitmap_scan. */
  method SyncDirEntry(p: Partition, i: nat, e: Entry) returns (ok: bool)
    requires p.Valid() && DirOk(p.View(), i) && p.diskBits == p.bits && GoodEntry(e) && HasRoom(p.View(), i)
    requires Lookup(Listing(p.View(), i), e.name).None? && NewNumber(Listing(p.View(), i), e.iNo)
    modifies p`blocks, p`bits, p`diskBits, p`nodes, p`owner, p`stopped
    ensures p.Valid() && i in old(p.nodes) && |old(p.nodes)[i].sectors| == 13
    ensures ok <==> FreeCount(old(p.bits)) > 0 || !NeedsBlock(old(p.View()), i)
    ensures p.stopped == (old(p.stopped) || !ok) && FreeCount(p.bits) + 1 >= FreeCount(old(p.bits))
    ensures !ok ==> p.View() == old(p.View())
    ensures ok ==> EntryAdded(old(p.View()), p.View(), i, e)
  {
    hide Inv, DirOk, Listing, Lookup, NewNumber, HasGap, HasRoom, NeedsBlock, FirstGap, EntryAdded, FreeCount, GoodEntry;
    ghost var v := p.View();
    DirShape(v, i);
    ghost var gap := RoomGap(v, i);
    var k := 0;
    while true
      invariant 0 <= k <= gap && p.View() == v && p.diskBits == p.bits && p.Valid() && DirOk(p.View(), i) && p.bits == old(p.bits)
      invariant Lookup(Listing(p.View(), i), e.name).None? && NewNumber(Listing(p.View(), i), e.iNo)
      invariant (forall m :: 0 <= m < k ==> !HasGap(v, i, m)) && p.stopped == old(p.stopped)
      decreases 12 - k
    {
      var done;
      done, ok := TryBlock(p, i, k, e);
      if done {
        NeedsBlockIff(v, i, k);
        return;
      }
      k := k + 1;
    }
  }

  lemma NeedsBlockIff(v: Volume, i: nat, k: nat)
    requires i in v.nodes && |v.nodes[i].sectors| == 13 && k < 12 && HasGap(v, i, k) && forall m :: 0 <= m < k ==> !HasGap(v, i, m)
    ensures NeedsBlock(v, i) <==> v.nodes[i].sectors[k] == 0
  {
    hide HasGap;
    assert FirstGap(v, i, k);
    forall m: nat | FirstGap(v, i, m)
      ensures m == k
    {
      OneFirstGap(v, i, m, k);
    }
  }

  lemma OneFirstGap(v: Volume, i: nat, a: nat, b: nat)
    requires i in v.nodes && |v.nodes[i].sectors| == 13 && FirstGap(v, i, a) && FirstGap(v, i, b)
    ensures a == b
  {
    hide HasGap;
  }

  lemma DirShape(v: Volume, i: nat)
    requires DirOk(v, i)
    ensures i in v.nodes && |v.nodes[i].sectors| == 13 && v.nodes[i].sectors[0] != 0
  {}

  lemma RoomGap(v: Volume, i: nat) returns (gap: nat)
    requires i in v.nodes && |v.nodes[i].sectors| == 13 && HasRoom(v, i)
    ensures gap < 12 && HasGap(v, i, gap)
  {
    gap :| gap < 12 && HasGap(v, i, gap);
  }

  // ---------- delete_dir_entry ----------

  /** e is what delete_dir_entry looks for: live, not a dot, and for inode iNo. */
  predicate Wanted(e: Entry, iNo: nat) {
    Live(e) && !IsDot(e) && e.iNo == iNo
  }

  /** The entries that `dir_entry_cnt` counts. */
  function NonDots(s: seq<Entry>): nat {
    if s == [] then 0 else NonDots(s[1..]) + if Live(s[0]) && !IsDot(s[0]) then 1 else 0
  }

  lemma {:induction false} NonDotsStep(s: seq<Entry>, j: nat)
    requires j < |s|
    ensures NonDots(s[..j + 1]) == NonDots(s[..j]) + if Live(s[j]) && !IsDot(s[j]) then 1 else 0
  {
    if j > 0 {
      NonDotsStep(s[1..], j - 1);
      assert s[..j + 1][1..] == s[1..][..j] && s[..j][1..] == s[1..][..j - 1];
    }
  }

  /** Without dots, the count is the number of live entries. */
  lemma {:induction false} NoDotsCount(s: seq<Entry>)
    requires forall j :: 0 <= j < |s| && Live(s[j]) ==> !IsDot(s[j])
    ensures |Alive(s)| == NonDots(s)
  {
    if s != [] {
      NoDotsCount(s[1..]);
      assert s == [s[0]] + s[1..];
      AliveCons(s[0], s[1..]);
    }
  }

  /** The scan of one block, with the ASSERT that the inode has one entry only. */
  method ScanBlock(es: seq<Entry>, iNo: nat) returns (found: Option<nat>, cnt: nat, isFirst: bool)
    requires forall m, j :: 0 <= m < j < |es| && Wanted(es[m], iNo) ==> !Wanted(es[j], iNo)
    ensures found.Some? ==> found.value < |es| && Wanted(es[found.value], iNo)
    ensures found.None? ==> forall j :: 0 <= j < |es| ==> !Wanted(es[j], iNo)
    ensures cnt == NonDots(es) && (isFirst <==> exists j :: 0 <= j < |es| && Live(es[j]) && es[j].name == DOT)
  {
    found, cnt, isFirst := None, 0, false;
    var j := 0;
    while j < |es|
      invariant 0 <= j <= |es| && cnt == NonDots(es[..j])
      invariant found.Some? ==> found.value < j && Wanted(es[found.value], iNo)
      invariant found.None? ==> forall m :: 0 <= m < j ==> !Wanted(es[m], iNo)
      invariant isFirst <==> exists m :: 0 <= m < j && Live(es[m]) && es[m].name == DOT
    {
      NonDotsStep(es, j);
      if es[j].ftype != UNKNOWN {
        if es[j].name == DOT {
          isFirst := true;
        } else if es[j].name != DOTDOT {
          cnt := cnt + 1;
          if es[j].iNo == iNo {
            assert found == None;
            found := Some(j);
          }
        }
      }
      j := j + 1;
    }
    assert es[..|es|] == es;
  }

  lemma {:induction false} OneWanted(es: seq<Entry>, iNo: nat, m: nat, j: nat)
    requires NumbersDistinct(Alive(es)) && m < j < |es| && Wanted(es[m], iNo)
    ensures !Wanted(es[j], iNo)
  {
    assert es == [es[0]] + es[1..];
    AliveCons(es[0], es[1..]);
    var rest := Alive(es[1..]);
    if m > 0 {
      TailDistinct(if Live(es[0]) then [es[0]] else [], rest);
      OneWanted(es[1..], iNo, m - 1, j - 1);
    } else {
      InAlive(es[1..], es[j]);
      assert es[1..][j - 1] == es[j];
      NotInTail(es[0], rest);
    }
  }

  lemma NotInTail(e: Entry, rest: seq<Entry>)
    requires NumbersDistinct([e] + rest) && !IsDot(e)
    ensures NewNumber(rest, e.iNo)
  {
    forall x | x in rest && !IsDot(x)
      ensures x.iNo != e.iNo
    {
      var k :| 0 <= k < |rest| && rest[k] == x;
      assert ([e] + rest)[k + 1] == x && ([e] + rest)[0] == e;
    }
  }

  lemma TailDistinct(a: seq<Entry>, b: seq<Entry>)
    requires NumbersDistinct(a + b)
    ensures NumbersDistinct(b)
  {
    forall j: nat, k: nat | j < k < |b| && !IsDot(b[j]) && !IsDot(b[k])
      ensures b[j].iNo != b[k].iNo
    {
      assert (a + b)[|a| + j] == b[j] && (a + b)[|a| + k] == b[k];
    }
  }

  lemma MiddleDistinct(a: seq<Entry>, b: seq<Entry>, c: seq<Entry>)
    requires NumbersDistinct(a + b + c)
    ensures NumbersDistinct(b)
  {
    forall j: nat, k: nat | j < k < |b| && !IsDot(b[j]) && !IsDot(b[k])
      ensures b[j].iNo != b[k].iNo
    {
      assert (a + b + c)[|a| + j] == b[j] && (a + b + c)[|a| + k] == b[k];
    }
  }

  /** In block k of a directory at most one entry is wanted. */
  lemma BlockHasOne(v: Volume, i: nat, k: nat, iNo: nat)
    requires DirOk(v, i) && k < 12
    ensures forall m, j :: 0 <= m < j < |EntriesOf(v, i, k)| && Wanted(EntriesOf(v, i, k)[m], iNo) ==> !Wanted(EntriesOf(v, i, k)[j], iNo)
  {
    ListingAt(v, i, k);
    var es := EntriesOf(v, i, k);
    MiddleDistinct(Alive(Stretch(v, i, 0, k)), Alive(es), Alive(Stretch(v, i, k + 1, 12)));
    hide EntriesOf, Listing, Raw, Stretch;
    forall m: nat, j: nat | m < j < |es| && Wanted(es[m], iNo)
      ensures !Wanted(es[j], iNo)
    {
      OneWanted(es, iNo, m, j);
    }
  }

  /** Only the first block has dots. */
  lemma NoDotsLater(v: Volume, i: nat, k: nat, j: nat)
    requires DirOk(v, i) && 0 < k < 12 && j < |EntriesOf(v, i, k)| && Live(EntriesOf(v, i, k)[j])
    ensures !IsDot(EntriesOf(v, i, k)[j])
  {
    hide *;
    var e := EntriesOf(v, i, k)[j];
    DirFacts(v, i);
    StretchSplit(v, i, 1, k, 12);
    StretchStep(v, i, k);
    StretchStep(v, i, 0);
    ListingAt(v, i, 0);
    TwoFirst(EntriesOf(v, i, 0));
    InAlive(Stretch(v, i, 1, 12), e);
    InMiddle(Stretch(v, i, 1, k), EntriesOf(v, i, k), Stretch(v, i, k + 1, 12), j);
    AfterDots(Alive(EntriesOf(v, i, 0)), Alive(Stretch(v, i, 1, 12)), e);
  }

  lemma DirFacts(v: Volume, i: nat)
    requires DirOk(v, i)
    ensures i in v.nodes && |v.nodes[i].sectors| == 13 && v.nodes[i].sectors[0] != 0 && v.nodes[i].sectors[12] == 0
    ensures v.nodes[i].size == ENTRY * |Listing(v, i)|
    ensures NamesDistinct(Listing(v, i)) && NumbersDistinct(Listing(v, i)) && AllWellFormed(Raw(v, i))
    ensures var b := EntriesOf(v, i, 0);
            && Dots(b, i) && |b| >= 2 && Live(b[0]) && Live(b[1]) && b[0].name == DOT && b[1].name == DOTDOT
    ensures Alive([]) == []
  {}

  lemma InMiddle(a: seq<Entry>, b: seq<Entry>, c: seq<Entry>, j: nat)
    requires j < |b|
    ensures b[j] in a + (b + c)
  {
    assert (a + (b + c))[|a| + j] == b[j];
  }

  lemma AfterDots(head: seq<Entry>, tail: seq<Entry>, e: Entry)
    requires NamesDistinct([] + head + tail) && |head| >= 2 && head[0].name == DOT && head[1].name == DOTDOT && e in tail
    ensures !IsDot(e)
  {
    var all := [] + head + tail;
    var x :| 0 <= x < |tail| && tail[x] == e;
    assert all[|head| + x] == e && all[0] == head[0] && all[1] == head[1];
  }

  /** What delete_dir_entry promises: the entry has left the listing, and nothing else has changed; the
      inode is written back. */
  ghost predicate EntryRemoved(v: Volume, r: Volume, i: nat, e: Entry) {
    && Inv(r) && r.diskBits == r.bits && Only(v, r, i) && DirOk(r, i) && i in r.table && i in r.nodes && r.table[i] == r.nodes[i]
    && (Populated(v, i) ==> Populated(r, i)) && FirstSector(r, i) == FirstSector(v, i)
    && exists a, b :: Inserts(r, v, i, a, e, b)
  }

  /** A live slot is cleared. */
  lemma SlotDeleted(v: Volume, r: Volume, i: nat, k: nat, j: nat, e: Entry)
    requires DirOk(v, i) && SlotSet(v, r, i, k, j, Nothing) && EntriesOf(v, i, k)[j] == e && Live(e) && !IsDot(e)
    requires r.nodes[i].size + ENTRY == v.nodes[i].size
    ensures DirOk(r, i) && exists a, b :: Inserts(r, v, i, a, e, b)
  {
    hide *;
    DirFacts(v, i);
    SlotFacts(v, r, i, k, j, Nothing);
    UpdateWellFormed(v, i, k, j, Nothing) by { NothingIsFine(); }
    DotsKept(v, r, i, k, j, e);
    var x, y := SlotDies(v, r, i, k, j, e);
    DeleteKeepsDir(v, r, i, k, x, e, y);
  }

  lemma NothingIsFine()
    ensures WellFormed(Nothing)
  {}

  lemma DotsKept(v: Volume, r: Volume, i: nat, k: nat, j: nat, e: Entry)
    requires SlotSet(v, r, i, k, j, Nothing) && Dots(EntriesOf(v, i, 0), i) && EntriesOf(v, i, k)[j] == e && !IsDot(e)
    ensures Dots(EntriesOf(r, i, 0), i)
  {
    DotsStay(v, r, i, k, j, Nothing);
  }

  lemma SlotDies(v: Volume, r: Volume, i: nat, k: nat, j: nat, e: Entry) returns (x: seq<Entry>, y: seq<Entry>)
    requires SlotSet(v, r, i, k, j, Nothing) && EntriesOf(v, i, k)[j] == e && Live(e)
    ensures Differ(r, v, i, k, x, e, y)
  {
    hide Alive, EntriesOf, BlockOf;
    assert EntriesOf(v, i, k) == EntriesOf(r, i, k)[j := e];
    x, y := DeadAndLive(EntriesOf(r, i, k), EntriesOf(v, i, k), j, e);
  }

  /** A block that held one entry only is given back. */
  lemma BlockDeleted(v: Volume, t: Volume, r: Volume, i: nat, k: nat, e: Entry)
    requires DirOk(v, i) && 0 < k < 12 && Alive(EntriesOf(v, i, k)) == [e]
    requires i in t.nodes && |t.nodes[i].sectors| == 13 && r == Resize(t, i, v.nodes[i].size - ENTRY)
    requires forall m :: 0 <= m < 13 ==> t.nodes[i].sectors[m] == if m == k then 0 else v.nodes[i].sectors[m]
    requires forall m :: 0 <= m < 13 && m != k ==> BlockOf(t, i, m) == BlockOf(v, i, m)
    ensures v.nodes[i].size >= ENTRY && DirOk(r, i) && exists a, b :: Inserts(r, v, i, a, e, b)
  {
    hide *;
    DirFacts(v, i);
    DirSize(v, i);
    ResizeIsLocal(t, i, v.nodes[i].size - ENTRY);
    BlockGone(v, t, r, i, k, e);
    DeleteKeepsDir(v, r, i, k, [], e, []);
  }

  lemma DirSize(v: Volume, i: nat)
    requires DirOk(v, i)
    ensures i in v.nodes && v.nodes[i].size >= ENTRY
  {
    ListingStarts(v, i);
  }

  lemma BlockGone(v: Volume, t: Volume, r: Volume, i: nat, k: nat, e: Entry)
    requires 0 < k < 12 && Alive(EntriesOf(v, i, k)) == [e] && Dots(EntriesOf(v, i, 0), i) && Alive([]) == []
    requires i in t.nodes && |t.nodes[i].sectors| == 13 && t.nodes[i].sectors[k] == 0
    requires forall m :: 0 <= m < 13 && m != k ==> BlockOf(t, i, m) == BlockOf(v, i, m)
    requires forall m :: 0 <= m < 13 ==> BlockOf(r, i, m) == BlockOf(t, i, m)
    ensures Differ(r, v, i, k, [], e, []) && AllWellFormed(EntriesOf(r, i, k)) && Dots(EntriesOf(r, i, 0), i)
  {
    assert BlockOf(t, i, k) == [];
    hide Entries;
    assert EntriesOf(r, i, k) == [];
    assert [] + [e] + [] == [e];
    assert BlockOf(r, i, 0) == BlockOf(v, i, 0);
    forall m: nat | m < 12 && m != k
      ensures BlockOf(v, i, m) == BlockOf(r, i, m)
    {
      assert BlockOf(t, i, m) == BlockOf(v, i, m);
    }
  }

  /** A block is given back, and i_size changes. */
  method OldBlock(p: Partition, i: nat, k: nat, size: nat) returns (ghost t: Volume)
    requires p.Valid() && i in p.nodes && |p.nodes[i].sectors| == 13 && 0 < k < 12 && p.nodes[i].sectors[k] != 0 && p.diskBits == p.bits
    modifies p`bits, p`diskBits, p`nodes, p`owner
    ensures p.Valid() && Inv(p.View()) && i in p.nodes && p.View().diskBits == p.View().bits && Only(old(p.View()), p.View(), i)
    ensures i in old(p.nodes) && i in t.nodes && |t.nodes[i].sectors| == 13 && p.View() == Resize(t, i, size)
    ensures FirstSector(p.View(), i) == FirstSector(old(p.View()), i)
    ensures forall m :: 0 <= m < 13 ==> t.nodes[i].sectors[m] == if m == k then 0 else old(p.nodes)[i].sectors[m]
    ensures forall m :: 0 <= m < 13 && m != k ==> BlockOf(t, i, m) == BlockOf(old(p.View()), i, m)
  {
    hide Inv, Only, BlockOf, BitmapSync;
    ghost var v := p.View();
    GiveIsLocal(v, i, k);
    GiveKeepsInv(v, i, k);
    p.BlockFree(i, k);
    t := p.View();
    p.SetSize(i, size);
    ResizeIsLocal(t, i, size);
    OnlyTransitive(v, t, p.View(), i);
  }

  /** The lonely entry of a block goes with the block. */
  method DropBlock(p: Partition, i: nat, k: nat, e: Entry)
    requires p.Valid() && DirOk(p.View(), i) && p.diskBits == p.bits && i in p.nodes && |p.nodes[i].sectors| == 13 && i < 256
    requires 0 < k < 12 && p.nodes[i].sectors[k] != 0 && Alive(EntriesOf(p.View(), i, k)) == [e] && p.nodes[i].size >= ENTRY
    modifies p`bits, p`diskBits, p`nodes, p`owner, p`table
    ensures p.Valid() && EntryRemoved(old(p.View()), p.View(), i, e)
  {
    hide Inv, DirOk, Only, BlockOf, EntriesOf, Alive, EntryRemoved, Resize, SyncNode, Populated, FirstSector;
    ghost var v := p.View();
    ghost var t := OldBlock(p, i, k, p.nodes[i].size - ENTRY);
    ghost var u := p.View();
    BlockDeleted(v, t, u, i, k, e);
    GonePopulated(v, t, u, i, k, v.nodes[i].size - ENTRY);
    p.InodeSync(i);
    RemovalEnds(v, u, i, e);
  }

  lemma GonePopulated(v: Volume, t: Volume, u: Volume, i: nat, k: nat, size: nat)
    requires i in v.nodes && |v.nodes[i].sectors| == 13
    requires i in t.nodes && |t.nodes[i].sectors| == 13 && u == Resize(t, i, size)
    requires forall m :: 0 <= m < 13 ==> t.nodes[i].sectors[m] == if m == k then 0 else v.nodes[i].sectors[m]
    requires forall m :: 0 <= m < 13 && m != k ==> BlockOf(t, i, m) == BlockOf(v, i, m)
    ensures Populated(v, i) ==> Populated(u, i)
  {
    hide Populated, BlockOf, EntriesOf;
    ResizeIsLocal(t, i, size);
    if Populated(v, i) {
      StaysPopulated(v, u, i, k);
    }
  }

  /** The entry is cleared in its block. */
  method ClearSlot(p: Partition, i: nat, k: nat, j: nat, e: Entry)
    requires p.Valid() && DirOk(p.View(), i) && p.diskBits == p.bits && i in p.nodes && |p.nodes[i].sectors| == 13 && i < 256
    requires k < 12 && p.nodes[i].sectors[k] != 0 && j < PER_BLOCK && j < |EntriesOf(p.View(), i, k)| && p.nodes[i].size >= ENTRY
    requires EntriesOf(p.View(), i, k)[j] == e && Live(e) && !IsDot(e)
    requires k == 0 || Alive(EntriesOf(p.View(), i, k)[j := Nothing]) != []
    modifies p`blocks, p`nodes, p`table
    ensures p.Valid() && EntryRemoved(old(p.View()), p.View(), i, e)
  {
    hide Inv, DirOk, Only, BlockOf, EntriesOf, Decode, SlotSet, EntryRemoved;
    ghost var v := p.View();
    ZeroEntry();
    ReplaceSlot(p, i, k, j, Zeros(ENTRY), p.nodes[i].size - ENTRY);
    ghost var u := p.View();
    SlotDeleted(v, u, i, k, j, e);
    if Populated(v, i) {
      SlotPopulated(v, u, i, k, j, Nothing);
    }
    p.InodeSync(i);
    RemovalEnds(v, u, i, e);
  }

  lemma RemovalEnds(v: Volume, u: Volume, i: nat, e: Entry)
    requires Inv(u) && u.diskBits == u.bits && Only(v, u, i) && DirOk(u, i) && i in u.nodes && exists a, b :: Inserts(u, v, i, a, e, b)
    requires (Populated(v, i) ==> Populated(u, i)) && FirstSector(u, i) == FirstSector(v, i)
    ensures EntryRemoved(v, SyncNode(u, i), i, e)
  {
    var r := SyncNode(u, i);
    SyncNodeKeepsInv(u, i);
    SyncNodeIsLocal(u, i);
    OnlyTransitive(v, u, r, i);
    SyncedSame(u, r, i);
    SameNodeSameDir(u, r, i);
    if Populated(u, i) {
      SamePopulated(u, r, i);
    }
    var a, b :| Inserts(u, v, i, a, e, b);
    assert Inserts(r, v, i, a, e, b);
  }

  lemma SamePopulated(u: Volume, r: Volume, i: nat)
    requires SameNode(u, r, i) && DirOk(u, i) && Populated(u, i)
    ensures Populated(r, i)
  {
    DirFacts(u, i);
    hide Populated, DirOk, Alive;
    assert BlockOf(r, i, 0) == BlockOf(u, i, 0);
    StaysPopulated(u, r, i, 0);
  }

  lemma SyncedSame(u: Volume, r: Volume, i: nat)
    requires i in u.nodes && r == SyncNode(u, i) && forall m :: 0 <= m < 13 ==> BlockOf(r, i, m) == BlockOf(u, i, m)
    ensures SameNode(u, r, i)
  {}

  /** One turn of the loop of delete_dir_entry. */
  method DeleteFromBlock(p: Partition, i: nat, k: nat, iNo: nat) returns (e: Option<Entry>)
    requires p.Valid() && DirOk(p.View(), i) && p.diskBits == p.bits && k < 12 && i < 256
    modifies p`blocks, p`bits, p`diskBits, p`nodes, p`owner, p`table
    ensures p.Valid()
    ensures e.None? ==> p.View() == old(p.View()) && p.bits == old(p.bits) && p.diskBits == old(p.diskBits)
    ensures e.None? ==> forall j :: 0 <= j < |EntriesOf(p.View(), i, k)| ==> !Wanted(EntriesOf(p.View(), i, k)[j], iNo)
    ensures e.Some? ==> Wanted(e.value, iNo) && EntryRemoved(old(p.View()), p.View(), i, e.value)
  {
    hide Inv, DirOk, EntryRemoved, NamesDistinct, NumbersDistinct, Listing, Raw, AllWellFormed, Alive;
    ghost var v := p.View();
    DirFacts(v, i);
    DirSize(v, i);
    if p.nodes[i].sectors[k] == 0 {
      return None;
    }
    var ioBuf := p.ReadBlock(i, k);
    var es := Entries(ioBuf);
    assert EntriesOf(v, i, k) == es;
    BlockHasOne(v, i, k, iNo);
    hide EntriesOf, BlockOf, Entries;
    var found, cnt, isFirst := ScanBlock(es, iNo);
    if found == None {
      return None;
    }
    var j := found.value;
    assert !(k == 0 && j < 2);
    assert cnt >= 1 by { CountsOne(es, j); }
    if cnt == 1 && !isFirst {
      LonelyEntry(v, i, k, j);
      DropBlock(p, i, k, es[j]);
    } else {
      NotLonely(v, i, k, j);
      ClearSlot(p, i, k, j, es[j]);
    }
    e := Some(es[j]);
  }

  lemma {:induction false} CountsOne(s: seq<Entry>, j: nat)
    requires j < |s| && Live(s[j]) && !IsDot(s[j])
    ensures NonDots(s) >= 1
  {
    if j > 0 {
      CountsOne(s[1..], j - 1);
    }
  }

  /** Exactly one entry counted, and not in the first block: it is the block's only live entry. */
  lemma LonelyEntry(v: Volume, i: nat, k: nat, j: nat)
    requires DirOk(v, i) && k < 12 && j < |EntriesOf(v, i, k)| && Live(EntriesOf(v, i, k)[j]) && NonDots(EntriesOf(v, i, k)) == 1
    requires !exists m :: 0 <= m < |EntriesOf(v, i, k)| && Live(EntriesOf(v, i, k)[m]) && EntriesOf(v, i, k)[m].name == DOT
    ensures 0 < k && Alive(EntriesOf(v, i, k)) == [EntriesOf(v, i, k)[j]]
  {
    hide *;
    DirFacts(v, i);
    var es := EntriesOf(v, i, k);
    forall m: nat | m < |es| && Live(es[m])
      ensures !IsDot(es[m])
    {
      NoDotsLater(v, i, k, m);
    }
    OnlyOne(es, j);
  }

  /** Otherwise the block keeps a live entry, or is the first one. */
  lemma NotLonely(v: Volume, i: nat, k: nat, j: nat)
    requires DirOk(v, i) && k < 12 && j < |EntriesOf(v, i, k)| && Live(EntriesOf(v, i, k)[j])
    requires NonDots(EntriesOf(v, i, k)) != 1 || exists m :: 0 <= m < |EntriesOf(v, i, k)| && Live(EntriesOf(v, i, k)[m]) && EntriesOf(v, i, k)[m].name == DOT
    ensures k == 0 || Alive(EntriesOf(v, i, k)[j := Nothing]) != []
  {
    hide *;
    var es := EntriesOf(v, i, k);
    if k > 0 {
      forall m: nat | m < |es| && Live(es[m])
        ensures !IsDot(es[m])
      {
        NoDotsLater(v, i, k, m);
      }
      MoreThanOne(es, j);
    }
  }

  lemma MoreThanOne(es: seq<Entry>, j: nat)
    requires j < |es| && Live(es[j]) && forall m :: 0 <= m < |es| && Live(es[m]) ==> !IsDot(es[m])
    requires NonDots(es) != 1 || exists m :: 0 <= m < |es| && Live(es[m]) && es[m].name == DOT
    ensures Alive(es[j := Nothing]) != []
  {
    NoDotsCount(es);
    AliveHas(es, j);
    hide Alive;
    assert es == es[j := Nothing][j := es[j]];
    var x, y := DeadAndLive(es[j := Nothing], es, j, es[j]);
  }

  lemma OnlyOne(es: seq<Entry>, j: nat)
    requires j < |es| && Live(es[j]) && NonDots(es) == 1 && forall m :: 0 <= m < |es| && Live(es[m]) ==> !IsDot(es[m])
    ensures Alive(es) == [es[j]]
  {
    NoDotsCount(es);
    InAlive(es, es[j]);
    hide Alive;
    var x :| 0 <= x < |Alive(es)| && Alive(es)[x] == es[j];
  }

  /** delete_dir_entry: the entry of the inode leaves the directory. It fails, and changes nothing,
      exactly when there is none. */
  method DeleteDirEntry(p: Partition, i: nat, iNo: nat) returns (e: Option<Entry>)
    requires p.Valid() && DirOk(p.View(), i) && p.diskBits == p.bits && i < 256
    modifies p`blocks, p`bits, p`diskBits, p`nodes, p`owner, p`table
    ensures p.Valid()
    ensures e.None? ==> p.View() == old(p.View())
    ensures e.None? <==> forall x :: x in Listing(old(p.View()), i) ==> !Wanted(x, iNo)
    ensures e.Some? ==> Wanted(e.value, iNo) && EntryRemoved(old(p.View()), p.View(), i, e.value)
  {
    hide *;
    ghost var v := p.View();
    NothingYet(v, i, iNo);
    var k := 0;
    e := None;
    while k < 12
      invariant 0 <= k <= 12 && p.View() == v && p.Valid() && DirOk(p.View(), i) && p.diskBits == p.bits && e == None
      invariant NoneWanted(Stretch(v, i, 0, k), iNo)
    {
      e := DeleteFromBlock(p, i, k, iNo);
      if e.Some? {
        RemovedWasThere(v, p.View(), i, e.value, iNo);
        return;
      }
      NoneWantedGrows(v, i, k, iNo);
      k := k + 1;
    }
    NoneWantedInListing(v, i, iNo);
  }

  predicate NoneWanted(s: seq<Entry>, iNo: nat) {
    forall x :: x in s ==> !Wanted(x, iNo)
  }

  lemma NothingYet(v: Volume, i: nat, iNo: nat)
    ensures NoneWanted(Stretch(v, i, 0, 0), iNo)
  {}

  lemma NoneWantedGrows(v: Volume, i: nat, k: nat, iNo: nat)
    requires k < 12 && NoneWanted(Stretch(v, i, 0, k), iNo)
    requires forall j :: 0 <= j < |EntriesOf(v, i, k)| ==> !Wanted(EntriesOf(v, i, k)[j], iNo)
    ensures NoneWanted(Stretch(v, i, 0, k + 1), iNo)
  {
    StretchSplit(v, i, 0, k, k + 1);
    hide EntriesOf;
    assert Stretch(v, i, k, k + 1) == EntriesOf(v, i, k) + [];
  }

  lemma NoneWantedInListing(v: Volume, i: nat, iNo: nat)
    requires NoneWanted(Stretch(v, i, 0, 12), iNo)
    ensures forall x :: x in Listing(v, i) ==> !Wanted(x, iNo)
  {
    hide Stretch;
    forall x | x in Listing(v, i)
      ensures !Wanted(x, iNo)
    {
      InAlive(Raw(v, i), x);
    }
  }

  lemma RemovedWasThere(v: Volume, r: Volume, i: nat, e: Entry, iNo: nat)
    requires EntryRemoved(v, r, i, e) && Wanted(e, iNo)
    ensures e in Listing(v, i) && !(forall x :: x in Listing(v, i) ==> !Wanted(x, iNo))
  {
    hide Listing, DirOk, Inv, Only;
    var a, b :| Inserts(r, v, i, a, e, b);
  }

  // ---------- A finite map on the disk ----------

  /** After sync_dir_entry a search finds the new entry, and for every other name what it found before. */
  lemma InsertedIsFound(v: Volume, r: Volume, i: nat, e: Entry, name: seq<byte>)
    requires DirOk(v, i) && EntryAdded(v, r, i, e) && Lookup(Listing(v, i), e.name).None?
    ensures Lookup(Listing(r, i), name) == if name == e.name then Some(e) else Lookup(Listing(v, i), name)
  {
    DirFacts(v, i);
    var a, b :| Inserts(v, r, i, a, e, b);
    hide *;
    InsertsParts(v, r, i, a, e, b);
    LookupInsert(a, e, b, name);
  }

  lemma InsertsParts(v: Volume, r: Volume, i: nat, a: seq<Entry>, e: Entry, b: seq<Entry>)
    requires Inserts(v, r, i, a, e, b)
    ensures Listing(v, i) == a + b && Listing(r, i) == a + [e] + b
  {}

  /** After delete_dir_entry a search for the name finds nothing, and for every other name what it found
      before. */
  lemma DeletedIsGone(v: Volume, r: Volume, i: nat, e: Entry, name: seq<byte>)
    requires DirOk(v, i) && EntryRemoved(v, r, i, e)
    ensures Lookup(Listing(r, i), name) == if name == e.name then None else Lookup(Listing(v, i), name)
  {
    DirFacts(v, i);
    var a, b :| Inserts(r, v, i, a, e, b);
    hide *;
    InsertsParts(r, v, i, a, e, b);
    LookupDelete(a, e, b, name);
  }

  /** dir_is_empty: the size says that only the two dots are left. */
  lemma EmptyIff(v: Volume, i: nat)
    requires DirOk(v, i)
    ensures v.nodes[i].size == 2 * ENTRY <==> forall e :: e in Listing(v, i) ==> IsDot(e)
  {
    hide DirOk, Raw, Listing, EntriesOf, Dots, AllWellFormed, NumbersDistinct, NamesDistinct, Alive;
    DirFacts(v, i);
    ListingStarts(v, i);
    OnlyDotsIff(Listing(v, i));
  }

  lemma OnlyDotsIff(s: seq<Entry>)
    requires NamesDistinct(s) && |s| >= 2 && s[0].name == DOT && s[1].name == DOTDOT
    ensures |s| == 2 <==> forall e :: e in s ==> IsDot(e)
  {
    if |s| > 2 {
      assert s[2] in s && !IsDot(s[2]);
    }
  }

  method DirIsEmpty(p: Partition, i: nat) returns (empty: bool)
    requires p.Valid() && DirOk(p.View(), i)
    ensures empty <==> forall e :: e in Listing(p.View(), i) ==> IsDot(e)
  {
    EmptyIff(p.View(), i);
    empty := p.nodes[i].size == ENTRY * 2;
  }

  // ---------- dir_read ----------

  /** The scan of one block: live entries before position `pos` are passed over, and the one at `pos`
      is the answer. `cur` is the position of the block's first live entry. */
  method ReadInBlock(es: seq<Entry>, cur: nat, pos: nat) returns (r: Option<Entry>, next: nat)
    requires cur % ENTRY == 0 && pos % ENTRY == 0 && cur <= pos
    ensures r.Some? ==> (pos - cur) / ENTRY < |Alive(es)| && r.value == Alive(es)[(pos - cur) / ENTRY]
    ensures r.None? ==> next == cur + ENTRY * |Alive(es)| <= pos
  {
    var j := 0;
    r, next := None, cur;
    assert es[..0] == [] && Alive([]) == [];
    while j < |es|
      invariant 0 <= j <= |es| && r == None && next == cur + ENTRY * |Alive(es[..j])| <= pos
    {
      AlivePrefix(es, j);
      if es[j].ftype != UNKNOWN {
        if next < pos {
          next := next + ENTRY;
        } else {
          assert next == pos;
          return Some(es[j]), next;
        }
      }
      j := j + 1;
    }
    assert es[..|es|] == es;
  }

  lemma AlivePrefix(es: seq<Entry>, j: nat)
    requires j < |es|
    ensures Alive(es[..j + 1]) == Alive(es[..j]) + if Live(es[j]) then [es[j]] else []
    ensures Live(es[j]) ==> |Alive(es[..j])| < |Alive(es)| && Alive(es)[|Alive(es[..j])|] == es[j]
  {
    assert es[..j + 1] == es[..j] + [es[j]];
    AliveConcat(es[..j], [es[j]]);
    AliveSplit(es, j);
    AliveCons(es[j], []);
    assert [es[j]] + [] == [es[j]];
  }

  /** dir_read: the entry at dir_pos, for which the loop never leaves the direct blocks; at the end of
      the directory, nothing. */
  method DirRead(p: Partition, i: nat, dirPos: nat) returns (r: Option<Entry>, newPos: nat)
    requires p.Valid() && DirOk(p.View(), i) && dirPos % ENTRY == 0
    ensures dirPos / ENTRY < |Listing(p.View(), i)| ==> r == Some(Listing(p.View(), i)[dirPos / ENTRY]) && newPos == dirPos + ENTRY
    ensures dirPos / ENTRY >= |Listing(p.View(), i)| ==> r == None && newPos == dirPos
  {
    hide DirOk, Inv, Listing, EntriesOf, Entries, BlockOf, ReadSoFar, Alive, Stretch, Dots, NamesDistinct, NumbersDistinct, AllWellFormed, Raw;
    ghost var v := p.View();
    DirFacts(v, i);
    Positions(v, i, dirPos);
    var k, cur := 0, 0;
    r, newPos := None, dirPos;
    while dirPos < p.nodes[i].size
      invariant 0 <= k <= 12 && r == None && newPos == dirPos && ReadSoFar(v, i, k, cur, dirPos)
      decreases 12 - k
    {
      StillInDirect(v, i, k, cur, dirPos);
      var next := cur;
      if p.nodes[i].sectors[k] != 0 {
        var buf := p.ReadBlock(i, k);
        BlockIsHere(v, i, k, buf);
        r, next := ReadInBlock(Entries(buf), cur, dirPos);
        if r.Some? {
          ghost var before := PositionAfter(v, i, k, cur, dirPos);
          FoundHere(v, i, k, before, dirPos / ENTRY);
          newPos := dirPos + ENTRY;
          return;
        }
      } else {
        NoBlockHere(v, i, k);
      }
      Passed(v, i, k, cur, next, dirPos);
      k, cur := k + 1, next;
    }
  }

  /** Blocks before k hold `cur` bytes of live entries, none of them at `pos` or later. */
  ghost predicate ReadSoFar(v: Volume, i: nat, k: nat, cur: nat, pos: nat) {
    cur == ENTRY * |Alive(Stretch(v, i, 0, k))| && cur <= pos && cur % ENTRY == 0 && pos % ENTRY == 0
  }

  lemma Positions(v: Volume, i: nat, pos: nat)
    requires DirOk(v, i) && pos % ENTRY == 0
    ensures i in v.nodes && (pos < v.nodes[i].size <==> pos / ENTRY < |Listing(v, i)|)
    ensures ReadSoFar(v, i, 0, 0, pos)
  {
    hide DirOk, Listing, EntriesOf, Dots, NamesDistinct, NumbersDistinct, AllWellFormed, Raw;
    DirFacts(v, i);
    PositionIff(pos, |Listing(v, i)|);
  }

  lemma PositionIff(pos: nat, n: nat)
    requires pos % ENTRY == 0
    ensures pos < ENTRY * n <==> pos / ENTRY < n
  {}

  /** The size bounds the loop: while there are entries left, there are blocks left. */
  lemma StillInDirect(v: Volume, i: nat, k: nat, cur: nat, pos: nat)
    requires DirOk(v, i) && i in v.nodes && pos < v.nodes[i].size && k <= 12 && ReadSoFar(v, i, k, cur, pos)
    ensures k < 12 && k < |v.nodes[i].sectors| && cur % ENTRY == 0 && pos % ENTRY == 0 && cur <= pos
  {
    hide DirOk, EntriesOf, Dots, NamesDistinct, NumbersDistinct, AllWellFormed, Stretch, Alive;
    DirFacts(v, i);
    if k == 12 {
      ReadToTheEnd(v, i, cur, pos);
    }
  }

  lemma ReadToTheEnd(v: Volume, i: nat, cur: nat, pos: nat)
    requires ReadSoFar(v, i, 12, cur, pos)
    ensures cur == ENTRY * |Listing(v, i)| && cur <= pos
  {}

  lemma BlockIsHere(v: Volume, i: nat, k: nat, buf: seq<byte>)
    requires buf == BlockOf(v, i, k) && |buf| == BLOCK
    ensures |buf| == SECTOR && EntriesOf(v, i, k) == Entries(buf)
  {}

  lemma NoBlockHere(v: Volume, i: nat, k: nat)
    requires i in v.nodes && k < |v.nodes[i].sectors| && v.nodes[i].sectors[k] == 0
    ensures EntriesOf(v, i, k) == [] && ENTRY * |Alive(EntriesOf(v, i, k))| == 0
  {}

  lemma Passed(v: Volume, i: nat, k: nat, cur: nat, next: nat, pos: nat)
    requires k < 12 && ReadSoFar(v, i, k, cur, pos) && next == cur + ENTRY * |Alive(EntriesOf(v, i, k))| <= pos
    ensures ReadSoFar(v, i, k + 1, next, pos)
  {
    hide EntriesOf, Stretch, Alive;
    StretchSplit(v, i, 0, k, k + 1);
    OneBlock(v, i, k);
    AliveConcat(Stretch(v, i, 0, k), EntriesOf(v, i, k));
    Multiples(|Alive(Stretch(v, i, 0, k))|, |Alive(EntriesOf(v, i, k))|);
  }

  lemma OneBlock(v: Volume, i: nat, k: nat)
    ensures Stretch(v, i, k, k + 1) == EntriesOf(v, i, k)
  {
    assert EntriesOf(v, i, k) + [] == EntriesOf(v, i, k);
  }

  lemma Multiples(a: nat, b: nat)
    ensures ENTRY * a + ENTRY * b == ENTRY * (a + b) && ENTRY * (a + b) % ENTRY == 0
  {}

  /** The entry of number n is in block k. */
  lemma FoundHere(v: Volume, i: nat, k: nat, before: nat, n: nat)
    requires k < 12 && before == |Alive(Stretch(v, i, 0, k))| <= n < before + |Alive(EntriesOf(v, i, k))|
    ensures n < |Listing(v, i)| && Listing(v, i)[n] == Alive(EntriesOf(v, i, k))[n - before]
  {
    hide Listing, EntriesOf, Stretch, Alive, Raw;
    ListingAt(v, i, k);
    InTheMiddle(Alive(Stretch(v, i, 0, k)), Alive(EntriesOf(v, i, k)), Alive(Stretch(v, i, k + 1, 12)), n - before);
  }

  lemma PositionAfter(v: Volume, i: nat, k: nat, cur: nat, pos: nat) returns (before: nat)
    requires ReadSoFar(v, i, k, cur, pos)
    ensures before == |Alive(Stretch(v, i, 0, k))| <= pos / ENTRY && (pos - cur) / ENTRY == pos / ENTRY - before
  {
    before := |Alive(Stretch(v, i, 0, k))|;
  }

  lemma InTheMiddle(a: seq<Entry>, b: seq<Entry>, c: seq<Entry>, j: nat)
    requires j < |b|
    ensures |a| + j < |a + b + c| && (a + b + c)[|a| + j] == b[j]
  {}

  /** Reading a directory from the beginning until dir_read has nothing more returns every live entry
      once, in the order of blocks and slots. */
  method ReadAll(p: Partition, i: nat) returns (es: seq<Entry>)
    requires p.Valid() && DirOk(p.View(), i)
    ensures es == Listing(p.View(), i)
  {
    hide DirOk, Inv, Listing;
    var pos := 0;
    es := [];
    while true
      invariant pos == ENTRY * |es| && |es| <= |Listing(p.View(), i)| && es == Listing(p.View(), i)[..|es|]
      decreases |Listing(p.View(), i)| - |es|
    {
      var e, next := DirRead(p, i, pos);
      if e == None {
        return;
      }
      es := es + [e.value];
      pos := next;
    }
  }
}

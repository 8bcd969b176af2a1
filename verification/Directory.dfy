/**
  Directories: 24-byte entries packed 21 to a block (fs/dir.c:32-91, 107-389), read as the list of their
  live entries.
 */
module Directory {
  import opened Outcomes
  import opened Bytes

  const NAME := 16                   // MAX_FILE_NAME_LEN
  const ENTRY := 24                  // sizeof(struct dir_entry)
  const PER_BLOCK := 21              // SECTOR_SIZE / ENTRY
  const SECTOR := 512

  const UNKNOWN := 0                 // FT_UNKNOWN
  const REGULAR := 1
  const DIRECTORY := 2

  datatype Entry = Entry(name: seq<byte>, iNo: nat, ftype: nat)

  /** The bytes of "." and "..". */
  const DOT: seq<byte> := [46]
  const DOTDOT: seq<byte> := [46, 46]

  const Nothing := Entry([], 0, UNKNOWN)

  /** Names of 1 to 15 bytes, so that the terminator fits. */
  predicate GoodName(name: seq<byte>) {
    1 <= |name| < NAME && 0 !in name
  }

  predicate GoodEntry(e: Entry) {
    GoodName(e.name) && e.iNo < 4096 && (e.ftype == REGULAR || e.ftype == DIRECTORY)
  }

  // ---------- The bytes of an entry ----------

  /** create_dir_entry, on a zeroed entry. */
  function Encode(e: Entry): (r: seq<byte>)
    requires |e.name| <= NAME
    ensures |r| == ENTRY
  {
    e.name + Zeros(NAME - |e.name|) + Word(e.iNo) + Word(e.ftype)
  }

  function Decode(b: seq<byte>): Entry
    requires |b| == ENTRY
  {
    Entry(CString(b[..NAME]), WordAt(b, 16), WordAt(b, 20))
  }

  lemma RoundTrip(e: Entry)
    requires GoodEntry(e)
    ensures Decode(Encode(e)) == e
  {
    var b := Encode(e);
    assert b[..NAME] == e.name + Zeros(NAME - |e.name|);
    CStringOfPadded(e.name, NAME - |e.name|);
    assert b[16..20] == Word(e.iNo) && b[20..24] == Word(e.ftype);
    WordRoundTrip(e.iNo, b, 16);
    WordRoundTrip(e.ftype, b, 20);
  }

  lemma ZeroEntry()
    ensures Decode(Zeros(ENTRY)) == Nothing
  {
    CStringOfPadded([], NAME);
    assert Zeros(ENTRY)[..NAME] == [] + Zeros(NAME);
  }

  // ---------- The entries of a block ----------

  function EntryAt(b: seq<byte>, j: nat): Entry
    requires |b| == SECTOR && j < PER_BLOCK
  {
    Decode(b[ENTRY * j..ENTRY * j + ENTRY])
  }

  /** Where the members of entry j lie in its 24 bytes. */
  lemma EntryLayout(b: seq<byte>, j: nat)
    requires |b| == 512 && j < 21
    ensures var e := EntryAt(b, j);
            && e.iNo == WordAt(b, 24 * j + 16) && e.ftype == WordAt(b, 24 * j + 20)
            && |e.name| <= 16 && 0 !in e.name && e.name == b[24 * j..24 * j + |e.name|] && (|e.name| < 16 ==> b[24 * j + |e.name|] == 0)
  {
    var c := b[24 * j..24 * j + 24];
    assert c[..16] == b[24 * j..24 * j + 16];
    var name := CString(c[..16]);
    assert name == c[..16][..|name|] == b[24 * j..24 * j + |name|];
  }

  function Entries(b: seq<byte>): (r: seq<Entry>)
    requires |b| == SECTOR
    ensures |r| == PER_BLOCK && forall j :: 0 <= j < PER_BLOCK ==> r[j] == EntryAt(b, j)
  {
    seq(PER_BLOCK, j requires 0 <= j < PER_BLOCK => EntryAt(b, j))
  }

  lemma OtherEntry(b: seq<byte>, j: nat, data: seq<byte>, m: nat)
    requires |b| == SECTOR && j < PER_BLOCK && m < PER_BLOCK && |data| == ENTRY
    ensures EntryAt(Patch(b, ENTRY * j, data), m) == if m == j then Decode(data) else EntryAt(b, m)
  {
    var r := Patch(b, ENTRY * j, data);
    if m != j {
      assert r[ENTRY * m..ENTRY * m + ENTRY] == b[ENTRY * m..ENTRY * m + ENTRY];
    }
  }

  /** memcpy of an entry into its place in the block. */
  lemma PatchEntries(b: seq<byte>, j: nat, data: seq<byte>)
    requires |b| == SECTOR && j < PER_BLOCK && |data| == ENTRY
    ensures Entries(Patch(b, ENTRY * j, data)) == Entries(b)[j := Decode(data)]
  {
    forall m: nat | m < PER_BLOCK
      ensures Entries(Patch(b, ENTRY * j, data))[m] == Entries(b)[j := Decode(data)][m]
    {
      OtherEntry(b, j, data, m);
    }
  }

  lemma ZeroBlock(j: nat)
    requires j < PER_BLOCK
    ensures EntryAt(Zeros(SECTOR), j) == Nothing
  {
    ZeroEntry();
    assert Zeros(SECTOR)[ENTRY * j..ENTRY * j + ENTRY] == Zeros(ENTRY);
  }

  // ---------- The live entries of a list ----------

  predicate Live(e: Entry) {
    e.ftype != UNKNOWN
  }

  function Alive(s: seq<Entry>): seq<Entry> {
    if s == [] then [] else (if Live(s[0]) then [s[0]] else []) + Alive(s[1..])
  }

  lemma {:induction false} InAlive(s: seq<Entry>, e: Entry)
    ensures e in Alive(s) <==> e in s && Live(e)
  {
    if s != [] {
      assert s == [s[0]] + s[1..];
      InAlive(s[1..], e);
    }
  }

  lemma {:induction false} AliveConcat(a: seq<Entry>, b: seq<Entry>)
    ensures Alive(a + b) == Alive(a) + Alive(b)
  {
    if a == [] {
      assert a + b == b;
    } else {
      var rest := a[1..] + b;
      assert (a + b)[1..] == rest && (a + b)[0] == a[0];
      AliveConcat(a[1..], b);
      Associate(if Live(a[0]) then [a[0]] else [], Alive(a[1..]), Alive(b));
    }
  }

  lemma Associate(a: seq<Entry>, b: seq<Entry>, c: seq<Entry>)
    ensures a + (b + c) == a + b + c
  {}

  lemma AliveCons(e: Entry, s: seq<Entry>)
    ensures Alive([e] + s) == (if Live(e) then [e] else []) + Alive(s)
  {
    assert ([e] + s)[1..] == s;
  }

  lemma AliveSplit(s: seq<Entry>, j: nat)
    requires j < |s|
    ensures Alive(s) == Alive(s[..j]) + (if Live(s[j]) then [s[j]] else []) + Alive(s[j + 1..])
  {
    assert s == s[..j] + s[j..] && s[j..] == [s[j]] + s[j + 1..];
    AliveConcat(s[..j], s[j..]);
    AliveCons(s[j], s[j + 1..]);
    hide *;
    Assoc(Alive(s[..j]), if Live(s[j]) then [s[j]] else [], Alive(s[j + 1..]));
  }

  lemma Assoc(a: seq<Entry>, b: seq<Entry>, c: seq<Entry>)
    ensures a + (b + c) == a + b + c
  {}

  /** An entry that is written over in place. */
  lemma AliveUpdate(s: seq<Entry>, j: nat, e: Entry)
    requires j < |s|
    ensures Alive(s[j := e]) == Alive(s[..j]) + (if Live(e) then [e] else []) + Alive(s[j + 1..])
  {
    AliveSplit(s[j := e], j);
    assert s[j := e][..j] == s[..j] && s[j := e][j + 1..] == s[j + 1..];
  }

  /** A slot that is dead in s and holds the live entry e in t. */
  lemma DeadAndLive(s: seq<Entry>, t: seq<Entry>, j: nat, e: Entry) returns (x: seq<Entry>, y: seq<Entry>)
    requires j < |s| && t == s[j := e] && Live(e) && !Live(s[j])
    ensures Alive(s) == x + y && Alive(t) == x + [e] + y
  {
    AliveSplit(s, j);
    AliveUpdate(s, j, e);
    hide *;
    x, y := Alive(s[..j]), Alive(s[j + 1..]);
    EmptyMiddle(x, y);
  }

  lemma EmptyMiddle(x: seq<Entry>, y: seq<Entry>)
    ensures x + [] + y == x + y
  {}

  // ---------- A directory as a finite map ----------

  predicate NamesDistinct(s: seq<Entry>) {
    forall j, k :: 0 <= j < k < |s| ==> s[j].name != s[k].name
  }

  /** What search_dir_entry finds in a list of live entries: the first one with the name. */
  function Lookup(s: seq<Entry>, name: seq<byte>): Option<Entry> {
    if s == [] then None else if s[0].name == name then Some(s[0]) else Lookup(s[1..], name)
  }

  lemma {:induction false} LookupFinds(s: seq<Entry>, name: seq<byte>)
    ensures Lookup(s, name).Some? ==> Lookup(s, name).value in s && Lookup(s, name).value.name == name
    ensures Lookup(s, name).None? <==> forall e :: e in s ==> e.name != name
  {
    if s != [] {
      assert s == [s[0]] + s[1..];
      LookupFinds(s[1..], name);
    }
  }

  lemma {:induction false} LookupConcat(a: seq<Entry>, b: seq<Entry>, name: seq<byte>)
    ensures Lookup(a + b, name) == if Lookup(a, name).Some? then Lookup(a, name) else Lookup(b, name)
  {
    if a == [] {
      assert a + b == b;
    } else {
      assert (a + b)[1..] == a[1..] + b;
      LookupConcat(a[1..], b, name);
    }
  }

  lemma LookupAround(a: seq<Entry>, e: Entry, b: seq<Entry>, name: seq<byte>)
    ensures Lookup(a + [e] + b, name) ==
            if Lookup(a, name).Some? then Lookup(a, name) else if name == e.name then Some(e) else Lookup(b, name)
    ensures Lookup(a + b, name) == if Lookup(a, name).Some? then Lookup(a, name) else Lookup(b, name)
  {
    LookupConcat(a + [e], b, name);
    LookupConcat(a, [e], name);
    LookupConcat(a, b, name);
  }

  /** Where the entries of a + [e] + b are in a + b. */
  lemma AroundAt(a: seq<Entry>, e: Entry, b: seq<Entry>, k: nat)
    requires k < |a + [e] + b| && k != |a|
    ensures (a + [e] + b)[k] == (a + b)[if k < |a| then k else k - 1]
    ensures (a + [e] + b)[|a|] == e
  {}

  /** Adding an entry with a new name adds exactly this name to the map. */
  lemma LookupInsert(a: seq<Entry>, e: Entry, b: seq<Entry>, name: seq<byte>)
    requires NamesDistinct(a + b) && Lookup(a + b, e.name).None?
    ensures NamesDistinct(a + [e] + b)
    ensures Lookup(a + [e] + b, name) == if name == e.name then Some(e) else Lookup(a + b, name)
  {
    LookupAround(a, e, b, name);
    LookupAround(a, e, b, e.name);
    LookupFinds(a + b, e.name);
    InsertDistinct(a, e, b);
  }

  lemma InsertDistinct(a: seq<Entry>, e: Entry, b: seq<Entry>)
    requires NamesDistinct(a + b) && forall x :: x in a + b ==> x.name != e.name
    ensures NamesDistinct(a + [e] + b)
  {
    var s, r := a + b, a + [e] + b;
    forall j: nat, k: nat | j < k < |r|
      ensures r[j].name != r[k].name
    {
      if j != |a| {
        AroundAt(a, e, b, j);
        assert r[j] in s;
      }
      if k != |a| {
        AroundAt(a, e, b, k);
        assert r[k] in s;
      }
    }
  }

  /** Removing an entry removes exactly its name. */
  lemma LookupDelete(a: seq<Entry>, e: Entry, b: seq<Entry>, name: seq<byte>)
    requires NamesDistinct(a + [e] + b)
    ensures NamesDistinct(a + b)
    ensures Lookup(a + b, name) == if name == e.name then None else Lookup(a + [e] + b, name)
  {
    LookupAround(a, e, b, name);
    DeleteDistinct(a, e, b);
  }

  lemma DeleteDistinct(a: seq<Entry>, e: Entry, b: seq<Entry>)
    requires NamesDistinct(a + [e] + b)
    ensures NamesDistinct(a + b) && Lookup(a + b, e.name).None?
    ensures Lookup(a, e.name).None? && Lookup(b, e.name).None?
  {
    var s, r := a + [e] + b, a + b;
    forall j: nat | j < |r|
      ensures r[j].name != e.name
    {
      AroundAt(a, e, b, if j < |a| then j else j + 1);
    }
    forall j: nat, k: nat | j < k < |r|
      ensures r[j].name != r[k].name
    {
      AroundAt(a, e, b, if j < |a| then j else j + 1);
      AroundAt(a, e, b, if k < |a| then k else k + 1);
    }
    LookupFinds(r, e.name);
    LookupFinds(a, e.name);
    LookupFinds(b, e.name);
    assert forall x :: x in a || x in b ==> x in r;
  }
}

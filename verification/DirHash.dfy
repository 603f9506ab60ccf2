/** The two hash tables over the entries of a directory. */
module DirHash {
  import opened FatNames
  import opened DirSlots

  const TABLE_SIZE: nat := 0x400

  datatype Which = Long | Short

  /** What a table compares: the upper-cased name, or the short name. */
  function Key(w: Which, e: DirEnt): seq<int> {
    if w.Long? then UpperAll(e.name) else ShortName(e.entry)
  }

  /** A bucket per hash value, each the chain of forward links from its head. */
  type Table = seq<seq<DirEnt>>

  function EmptyTable(): Table {
    seq(TABLE_SIZE, _ => [])
  }

  /** FatHashLongName, FatHashShortName: `crc` is the checksum service. */
  function Hash(crc: seq<int> -> nat, key: seq<int>): (h: nat)
    ensures h < TABLE_SIZE
  {
    crc(key) % TABLE_SIZE
  }

  /** Where the search for a key stops in a chain: at the first match or at its end. */
  function Search(w: Which, chain: seq<DirEnt>, key: seq<int>): (i: nat)
    ensures i <= |chain| && (i < |chain| ==> Key(w, chain[i]) == key)
    ensures forall j :: 0 <= j < i ==> Key(w, chain[j]) != key
  {
    if chain == [] || Key(w, chain[0]) == key then 0 else 1 + Search(w, chain[1..], key)
  }

  ghost predicate Distinct(s: seq<DirEnt>) {
    forall i, j :: 0 <= i < j < |s| ==> s[i] != s[j]
  }

  /** No two entries share a name or a short name. */
  ghost predicate Unique(list: seq<DirEnt>) {
    forall w: Which, i, j :: 0 <= i < j < |list| ==> Key(w, list[i]) != Key(w, list[j])
  }

  /** Every bucket holds exactly the entries of `list` that hash to it, each once. */
  ghost predicate Indexes(w: Which, crc: seq<int> -> nat, table: Table, list: seq<DirEnt>) {
    |table| == TABLE_SIZE && forall b :: 0 <= b < TABLE_SIZE ==> BucketOk(w, crc, table[b], b, list)
  }

  ghost predicate BucketOk(w: Which, crc: seq<int> -> nat, chain: seq<DirEnt>, b: nat, list: seq<DirEnt>) {
    Distinct(chain) && forall e :: e in chain <==> e in list && Hash(crc, Key(w, e)) == b
  }

  /** FatInsertToHashTable, for one table: a new head. */
  function Insert(w: Which, crc: seq<int> -> nat, table: Table, e: DirEnt): Table
    requires |table| == TABLE_SIZE
  {
    var b := Hash(crc, Key(w, e));
    table[b := [e] + table[b]]
  }

  /** FatDeleteFromHashTable, for one table: the link to the first entry with that name
      becomes the forward link of the entry to be deleted. */
  function Delete(w: Which, crc: seq<int> -> nat, table: Table, e: DirEnt): Table
    requires |table| == TABLE_SIZE
  {
    var b := Hash(crc, Key(w, e));
    table[b := table[b][..Search(w, table[b], Key(w, e))] + ForwardLinks(table[b], e)]
  }

  /** The chain behind `e`. */
  function ForwardLinks(chain: seq<DirEnt>, e: DirEnt): seq<DirEnt> {
    if chain == [] then [] else if chain[0] == e then chain[1..] else ForwardLinks(chain[1..], e)
  }

  lemma EmptyIndexes(w: Which, crc: seq<int> -> nat)
    ensures Indexes(w, crc, EmptyTable(), [])
  {
  }

  lemma InsertIndexes(w: Which, crc: seq<int> -> nat, table: Table, list: seq<DirEnt>, i: nat, e: DirEnt)
    requires Indexes(w, crc, table, list) && e !in list && i <= |list|
    ensures Indexes(w, crc, Insert(w, crc, table, e), list[..i] + [e] + list[i..])
  {
    hide Key, Hash;
    var list' := list[..i] + [e] + list[i..];
    assert list == list[..i] + list[i..];
    assert forall x :: x in list' <==> x == e || x in list;
    forall b | 0 <= b < TABLE_SIZE
      ensures BucketOk(w, crc, Insert(w, crc, table, e)[b], b, list')
    {
      assert BucketOk(w, crc, table[b], b, list);
    }
  }

  lemma {:induction false} ForwardLinksAt(chain: seq<DirEnt>, k: nat)
    requires k < |chain| && Distinct(chain)
    ensures ForwardLinks(chain, chain[k]) == chain[k + 1..]
  {
    if k > 0 {
      ForwardLinksAt(chain[1..], k - 1);
      assert chain[1..][k - 1] == chain[k] && chain[1..][k..] == chain[k + 1..];
    }
  }

  /** With unique names deleting takes out exactly the entry. */
  lemma DeleteIndexes(w: Which, crc: seq<int> -> nat, table: Table, list: seq<DirEnt>, i: nat)
    requires Indexes(w, crc, table, list) && Unique(list) && i < |list|
    ensures |table| == TABLE_SIZE && Indexes(w, crc, Delete(w, crc, table, list[i]), list[..i] + list[i + 1..])
  {
    hide Key, Hash, ForwardLinks, Search;
    var e := list[i];
    var h := Hash(crc, Key(w, e));
    assert BucketOk(w, crc, table[h], h, list);
    var k := Search(w, table[h], Key(w, e));
    FirstIsEntry(w, list, table[h], i, k);
    ForwardLinksAt(table[h], k);
    WithoutOne(list, i);
    WithoutOne(table[h], k);
    var list' := list[..i] + list[i + 1..];
    forall b | 0 <= b < TABLE_SIZE
      ensures BucketOk(w, crc, Delete(w, crc, table, e)[b], b, list')
    {
      assert BucketOk(w, crc, table[b], b, list);
    }
  }

  lemma FirstIsEntry(w: Which, list: seq<DirEnt>, chain: seq<DirEnt>, i: nat, k: nat)
    requires Unique(list) && i < |list| && list[i] in chain && forall e :: e in chain ==> e in list
    requires k <= |chain| && (k < |chain| ==> Key(w, chain[k]) == Key(w, list[i]))
    requires forall j :: 0 <= j < k ==> Key(w, chain[j]) != Key(w, list[i])
    ensures k < |chain| && chain[k] == list[i]
  {
    hide Key;
    var m :| 0 <= m < |chain| && chain[m] == list[i];
    assert chain[k] in list;
    var j :| 0 <= j < |list| && list[j] == chain[k];
  }

  /** Taking one out of a sequence without repetitions. */
  lemma WithoutOne(s: seq<DirEnt>, k: nat)
    requires k < |s| && Distinct(s)
    ensures Distinct(s[..k] + s[k + 1..]) && forall e :: e in s[..k] + s[k + 1..] <==> e in s && e != s[k]
  {
    assert s == s[..k] + [s[k]] + s[k + 1..];
  }

  /** A search through the table is a search through the whole list. */
  lemma SearchFinds(w: Which, crc: seq<int> -> nat, table: Table, list: seq<DirEnt>, key: seq<int>)
    requires Indexes(w, crc, table, list)
    ensures |table| == TABLE_SIZE
    ensures var chain := table[Hash(crc, key)];
      var i := Search(w, chain, key);
      && (i < |chain| ==> chain[i] in list && Key(w, chain[i]) == key)
      && (i == |chain| <==> forall e :: e in list ==> Key(w, e) != key)
  {
    hide Key, Search;
    var h := Hash(crc, key);
    assert BucketOk(w, crc, table[h], h, list);
  }

  /** A new entry with a name and a short name of its own. */
  lemma UniqueInsert(list: seq<DirEnt>, i: nat, e: DirEnt)
    requires Unique(list) && i <= |list|
      && forall d :: d in list ==> Key(Long, d) != Key(Long, e) && Key(Short, d) != Key(Short, e)
    ensures Unique(list[..i] + [e] + list[i..])
  {
    hide Key;
    var list' := list[..i] + [e] + list[i..];
    forall w: Which, j, k | 0 <= j < k < |list'|
      ensures Key(w, list'[j]) != Key(w, list'[k])
    {
      assert w == Long || w == Short;
      if j != i && k != i {
        assert Key(w, list[if j < i then j else j - 1]) != Key(w, list[if k < i then k else k - 1]);
      }
    }
  }

  lemma UniqueRemove(list: seq<DirEnt>, i: nat)
    requires Unique(list) && i < |list|
    ensures Unique(list[..i] + list[i + 1..])
  {
    hide Key;
    var list' := list[..i] + list[i + 1..];
    forall w: Which, j, k | 0 <= j < k < |list'|
      ensures Key(w, list'[j]) != Key(w, list'[k])
    {
      assert Key(w, list[if j < i then j else j + 1]) != Key(w, list[if k < i then k else k + 1]);
    }
  }
}

/** Merging the line items of several periods into one master list of
    labels, matched across periods by their normalised key. The loop is
    written for any key function `key`; `AlignLabels` uses
    `NormalizeLabel`. */
module Align {
  import opened Common
  import opened Values
  import opened Labels
  import opened Statements

  /** The values of one period, by master label. */
  type ValueMap = map<string, Option<Value>>

  /** No two master labels share a key. */
  predicate DistinctKeys(key: string -> string, master: seq<string>)
  {
    forall i, j :: 0 <= i < j < |master| ==> key(master[i]) != key(master[j])
  }

  /** Some master label has the key `k`. */
  predicate HasKey(key: string -> string, master: seq<string>, k: string)
  {
    exists i :: 0 <= i < |master| && key(master[i]) == k
  }

  /** Every label of `a` is in `b`. */
  predicate Grows(a: seq<string>, b: seq<string>)
  {
    forall x :: x in a ==> x in b
  }

  /** `x` appears in `b` before `y`. */
  predicate Ordered(b: seq<string>, x: string, y: string)
  {
    exists i, j :: 0 <= i < j < |b| && b[i] == x && b[j] == y
  }

  /** Any two labels of `a` appear in `b` in the same order. */
  predicate OrderKept(a: seq<string>, b: seq<string>)
  {
    forall i, j :: 0 <= i < j < |a| ==> Ordered(b, a[i], a[j])
  }

  lemma HasKeyGrows(key: string -> string, a: seq<string>, b: seq<string>, k: string)
    requires HasKey(key, a, k) && Grows(a, b)
    ensures HasKey(key, b, k)
  {
    var i :| 0 <= i < |a| && key(a[i]) == k;
    assert a[i] in a;
    var j :| 0 <= j < |b| && b[j] == a[i];
  }

  /** The first master label with the key `k`, as the `for mi, mn in
      enumerate(master_norm)` loop finds it. */
  function FindKey(key: string -> string, master: seq<string>, k: string): (r: Option<nat>)
    ensures r.Some? ==>
      r.value < |master| && key(master[r.value]) == k
      && forall j :: 0 <= j < r.value ==> key(master[j]) != k
    ensures r.None? <==> !HasKey(key, master, k)
  {
    if master == [] then None
    else if key(master[0]) == k then Some(0)
    else
      var r := FindKey(key, master[1..], k);
      if r.Some? then Some(r.value + 1)
      else
        assert forall j :: 1 <= j < |master| ==> master[j] == master[1..][j - 1];
        None
  }

  /** `list.insert(pos, x)` */
  function Insert(s: seq<string>, pos: nat, x: string): (r: seq<string>)
    requires pos <= |s|
    ensures |r| == |s| + 1 && r[pos] == x
    ensures forall k :: 0 <= k < pos ==> r[k] == s[k]
    ensures forall k :: pos < k < |r| ==> r[k] == s[k - 1]
  {
    s[..pos] + [x] + s[pos..]
  }

  /** Inserting keeps every label and the order of any two. */
  lemma InsertKeepsOrder(s: seq<string>, pos: nat, x: string)
    requires pos <= |s|
    ensures Grows(s, Insert(s, pos, x)) && OrderKept(s, Insert(s, pos, x))
  {
    var r := Insert(s, pos, x);
    forall y | y in s ensures y in r {
      var i :| 0 <= i < |s| && s[i] == y;
      var i' := if i < pos then i else i + 1;
      assert r[i'] == y;
    }
    forall i, j | 0 <= i < j < |s| ensures Ordered(r, s[i], s[j]) {
      var i' := if i < pos then i else i + 1;
      var j' := if j < pos then j else j + 1;
      assert r[i'] == s[i] && r[j'] == s[j];
    }
  }

  /** Inserting a label with a new key keeps the keys distinct. */
  lemma InsertDistinct(key: string -> string, s: seq<string>, pos: nat, x: string)
    requires pos <= |s| && DistinctKeys(key, s) && !HasKey(key, s, key(x))
    ensures DistinctKeys(key, Insert(s, pos, x))
  {
    var r := Insert(s, pos, x);
    forall i, j | 0 <= i < j < |r| ensures key(r[i]) != key(r[j]) {
      var si := if i < pos then i else i - 1;
      var sj := if j < pos then j else j - 1;
      if i == pos {
        assert r[j] == s[sj];
      } else if j == pos {
        assert r[i] == s[si];
      } else {
        assert r[i] == s[si] && r[j] == s[sj] && si < sj;
      }
    }
  }

  /** The state of one period's pass: the master list, the period's map,
      and the position after the last matched or inserted label
      (`prev_master_idx + 1`). */
  datatype Cursor = Cursor(master: seq<string>, pmap: ValueMap, next: nat)

  /** The master list is consistent and the map only names master labels. */
  predicate Valid(key: string -> string, c: Cursor)
  {
    c.next <= |c.master| && DistinctKeys(key, c.master) && forall l :: l in c.pmap ==> l in c.master
  }

  /** One item of a period: a label whose key is known records its value
      under the master's label and moves the cursor just past it; a new
      label is inserted at the cursor, just after the last label matched
      or inserted in this period. */
  function Place(key: string -> string, c: Cursor, it: Item): (r: Cursor)
    requires c.next <= |c.master|
    ensures 1 <= r.next <= |r.master|
    ensures key(r.master[r.next - 1]) == key(it.name)
    ensures r.pmap == c.pmap[r.master[r.next - 1] := it.value]
    ensures HasKey(key, c.master, key(it.name)) ==> r.master == c.master
    ensures !HasKey(key, c.master, key(it.name)) ==>
      r.master == Insert(c.master, c.next, it.name) && r.next == c.next + 1
  {
    var found := FindKey(key, c.master, key(it.name));
    if found.Some? then Cursor(c.master, c.pmap[c.master[found.value] := it.value], found.value + 1)
    else Cursor(Insert(c.master, c.next, it.name), c.pmap[it.name := it.value], c.next + 1)
  }

  lemma PlaceValid(key: string -> string, c: Cursor, it: Item)
    requires Valid(key, c)
    ensures Valid(key, Place(key, c, it))
    ensures Grows(c.master, Place(key, c, it).master) && OrderKept(c.master, Place(key, c, it).master)
    ensures HasKey(key, Place(key, c, it).master, key(it.name))
  {
    var r := Place(key, c, it);
    if HasKey(key, c.master, key(it.name)) {
    } else {
      InsertKeepsOrder(c.master, c.next, it.name);
      InsertDistinct(key, c.master, c.next, it.name);
    }
    assert r.master[r.next - 1] in r.master;
  }

  /** One period's items, in order. */
  function PlaceAll(key: string -> string, c: Cursor, items: seq<Item>): (r: Cursor)
    requires c.next <= |c.master|
    ensures r.next <= |r.master|
    decreases |items|
  {
    if items == [] then c else PlaceAll(key, Place(key, c, items[0]), items[1..])
  }

  lemma {:induction false} PlaceAllValid(key: string -> string, c: Cursor, items: seq<Item>)
    requires Valid(key, c)
    ensures Valid(key, PlaceAll(key, c, items))
    ensures Grows(c.master, PlaceAll(key, c, items).master)
    ensures OrderKept(c.master, PlaceAll(key, c, items).master)
    ensures forall it :: it in items ==> HasKey(key, PlaceAll(key, c, items).master, key(it.name))
    decreases |items|
  {
    if items == [] {
    } else {
      var c1 := Place(key, c, items[0]);
      var r := PlaceAll(key, c1, items[1..]);
      PlaceValid(key, c, items[0]);
      PlaceAllValid(key, c1, items[1..]);
      HasKeyGrows(key, c1.master, r.master, key(items[0].name));
      forall it | it in items ensures HasKey(key, r.master, key(it.name)) {
        if it != items[0] {
          assert it in items[1..];
        }
      }
    }
  }

  /** The items of one period under its name. */
  datatype Period = Period(period: string, items: seq<Item>)

  /** The outer loop, from a master list and the maps built so far; a
      period named twice keeps its last map. */
  function AlignFrom(key: string -> string, master: seq<string>, maps: map<string, ValueMap>, data: seq<Period>)
    : (r: (seq<string>, map<string, ValueMap>))
    decreases |data|
  {
    if data == [] then (master, maps)
    else
      var c := PlaceAll(key, Cursor(master, map[], 0), data[0].items);
      AlignFrom(key, c.master, maps[data[0].period := c.pmap], data[1..])
  }

  /** `align_labels(all_data)`: the master list and one map per period. */
  function AlignLabels(data: seq<Period>): (seq<string>, map<string, ValueMap>)
  {
    AlignFrom(NormalizeLabel, [], map[], data)
  }

  /** The periods named in `data`. */
  function PeriodNames(data: seq<Period>): set<string>
  {
    set k | 0 <= k < |data| :: data[k].period
  }

  /** Every map names master labels only. */
  predicate MapsInMaster(maps: map<string, ValueMap>, master: seq<string>)
  {
    forall p, l :: p in maps && l in maps[p] ==> l in master
  }

  /** What one run of the outer loop promises. */
  predicate AlignedFrom(key: string -> string, master: seq<string>, maps: map<string, ValueMap>, data: seq<Period>,
                        m: seq<string>, ps: map<string, ValueMap>)
  {
    DistinctKeys(key, m) && MapsInMaster(ps, m) && Grows(master, m) && OrderKept(master, m)
    && ps.Keys == maps.Keys + PeriodNames(data)
    && forall k, it :: 0 <= k < |data| && it in data[k].items ==> HasKey(key, m, key(it.name))
  }

  lemma {:induction false} AlignFromSpec(key: string -> string, master: seq<string>, maps: map<string, ValueMap>, data: seq<Period>)
    requires DistinctKeys(key, master) && MapsInMaster(maps, master)
    ensures AlignedFrom(key, master, maps, data, AlignFrom(key, master, maps, data).0, AlignFrom(key, master, maps, data).1)
    decreases |data|
  {
    if data == [] {
      assert PeriodNames(data) == {};
    } else {
      var (m, ps) := AlignFrom(key, master, maps, data);
      var c := PlaceAll(key, Cursor(master, map[], 0), data[0].items);
      var maps1 := maps[data[0].period := c.pmap];
      PlaceAllValid(key, Cursor(master, map[], 0), data[0].items);
      assert MapsInMaster(maps1, c.master);
      AlignFromSpec(key, c.master, maps1, data[1..]);
      forall k, it | 0 <= k < |data| && it in data[k].items ensures HasKey(key, m, key(it.name)) {
        if k == 0 {
          HasKeyGrows(key, c.master, m, key(it.name));
        } else {
          assert data[1..][k - 1] == data[k];
        }
      }
    }
  }

  /** The promises of `align_labels`: no two master labels share a
      normalised key, every input label's key is in the master list, there
      is exactly one map per input period, and the maps name master labels
      only. */
  lemma AlignLabelsSpec(data: seq<Period>)
    ensures var (m, ps) := AlignLabels(data);
      DistinctKeys(NormalizeLabel, m) && MapsInMaster(ps, m) && ps.Keys == PeriodNames(data)
      && forall k, it :: 0 <= k < |data| && it in data[k].items ==> HasKey(NormalizeLabel, m, NormalizeLabel(it.name))
  {
    AlignFromSpec(NormalizeLabel, [], map[], data);
  }

  /** Later periods never reorder or drop the labels already in the master
      list. */
  lemma LaterPeriodsKeepOrder(master: seq<string>, maps: map<string, ValueMap>, data: seq<Period>)
    requires DistinctKeys(NormalizeLabel, master) && MapsInMaster(maps, master)
    ensures Grows(master, AlignFrom(NormalizeLabel, master, maps, data).0)
    ensures OrderKept(master, AlignFrom(NormalizeLabel, master, maps, data).0)
  {
    AlignFromSpec(NormalizeLabel, master, maps, data);
  }
}

/**
 * The directory comparison classifier (`_compare_worker`,
 * myrclone7calisiyor.py:296-337): entries of the right listing are indexed
 * by key path, each left entry is looked up and classified as left-only,
 * different or same, matched keys are deleted from the index, and what is
 * left in the index is right-only.
 *
 * The index is Python's insertion-ordered `dict`: `Index.order` is the
 * order in which keys were first inserted, `Index.entries` the current
 * value under each key.
 */
module Compare {

  import opened Paths
  import opened Model

  // ---------------------------------------------------------------- keys and criteria

  /** The key an entry is matched under: its path with a leading slash
      added when missing, then normalized. */
  function KeyOf(pl: Platform, f: FileItem): string {
    Normalize(pl, if |f.path| > 0 && f.path[0] == '/' then f.path else "/" + f.path)
  }

  /** The keys of a listing, as a set. */
  function KeySet(pl: Platform, fs: seq<FileItem>): set<string> {
    if fs == [] then {} else KeySet(pl, fs[..|fs| - 1]) + {KeyOf(pl, fs[|fs| - 1])}
  }

  /** No two entries of a listing share a key. */
  predicate UniqueKeys(pl: Platform, fs: seq<FileItem>) {
    forall i, j :: 0 <= i < j < |fs| ==> KeyOf(pl, fs[i]) != KeyOf(pl, fs[j])
  }

  /** One criterion violated by a matched pair: "isim" compares names,
      "boyut" sizes (only when neither side is a directory), "tarih"
      modification times; every comparison is exact string equality. */
  predicate Violates(criterion: string, lf: FileItem, rf: FileItem) {
    || (criterion == "isim" && lf.name != rf.name)
    || (criterion == "boyut" && !lf.isDir && !rf.isDir && lf.size != rf.size)
    || (criterion == "tarih" && lf.modified != rf.modified)
  }

  /** Whether a matched pair is `different`: some chosen criterion is
      violated. A pair that agrees on name and modification time is never
      different when either side is a directory, whatever the sizes; two
      files agreeing on those differ exactly when sizes are compared and
      differ. */
  function Differs(criteria: seq<string>, lf: FileItem, rf: FileItem): (d: bool)
    ensures d <==> exists c :: c in criteria && Violates(c, lf, rf)
    ensures lf.name == rf.name && lf.modified == rf.modified ==>
      (d <==> "boyut" in criteria && !lf.isDir && !rf.isDir && lf.size != rf.size)
  {
    var d := || ("isim" in criteria && lf.name != rf.name)
             || ("boyut" in criteria && !lf.isDir && !rf.isDir && lf.size != rf.size)
             || ("tarih" in criteria && lf.modified != rf.modified);
    assert d ==> Violates("isim", lf, rf) || Violates("boyut", lf, rf) || Violates("tarih", lf, rf);
    d
  }

  // ---------------------------------------------------------------- the index

  datatype Index = Index(order: seq<string>, entries: map<string, FileItem>)

  predicate Distinct(s: seq<string>) {
    forall i, j :: 0 <= i < j < |s| ==> s[i] != s[j]
  }

  /** The keys in insertion order are exactly the keys present, each once. */
  ghost predicate IndexValid(ix: Index) {
    Distinct(ix.order) && forall k :: k in ix.entries <==> k in ix.order
  }

  /** `d[k] = v`: a new key goes to the end of the order, an existing key
      keeps its place and takes the new value. */
  function Insert(ix: Index, k: string, v: FileItem): (r: Index)
    ensures IndexValid(ix) ==> IndexValid(r)
    ensures r.entries.Keys == ix.entries.Keys + {k}
    ensures k in r.entries && r.entries[k] == v
    ensures forall k' :: k' in ix.entries && k' != k ==> r.entries[k'] == ix.entries[k']
    ensures k in ix.entries ==> r.order == ix.order
    ensures k !in ix.entries ==> r.order == ix.order + [k]
  {
    var order := if k in ix.entries then ix.order else ix.order + [k];
    assert IndexValid(ix) ==> Distinct(order) by {
      if IndexValid(ix) && k !in ix.entries {
        assert forall j :: 0 <= j < |ix.order| ==> order[j] == ix.order[j] != k;
      }
    }
    Index(order, ix.entries[k := v])
  }

  /** The dict comprehension over the right listing: a repeated key keeps
      the position of its first insertion and the value of its last. */
  function BuildIndex(pl: Platform, rights: seq<FileItem>): (ix: Index)
    ensures IndexValid(ix)
    ensures ix.entries.Keys == KeySet(pl, rights)
  {
    if rights == [] then Index([], map[])
    else
      var rf := rights[|rights| - 1];
      Insert(BuildIndex(pl, rights[..|rights| - 1]), KeyOf(pl, rf), rf)
  }

  /** Every value in the index is a right entry filed under its own key. */
  lemma {:induction false} IndexedUnderOwnKey(pl: Platform, rights: seq<FileItem>)
    ensures forall k :: k in BuildIndex(pl, rights).entries ==>
      BuildIndex(pl, rights).entries[k] in rights && KeyOf(pl, BuildIndex(pl, rights).entries[k]) == k
  {
    if rights != [] {
      var init := rights[..|rights| - 1];
      IndexedUnderOwnKey(pl, init);
      var prev := BuildIndex(pl, init);
      var rf := rights[|rights| - 1];
      var ix := BuildIndex(pl, rights);
      assert ix.entries == prev.entries[KeyOf(pl, rf) := rf];
      forall k | k in ix.entries ensures ix.entries[k] in rights && KeyOf(pl, ix.entries[k]) == k {
        if k != KeyOf(pl, rf) {
          assert ix.entries[k] == prev.entries[k] && prev.entries[k] in init;
        }
      }
    }
  }

  /** The keys of a listing, entry by entry. */
  function Keys(pl: Platform, fs: seq<FileItem>): (ks: seq<string>)
    ensures |ks| == |fs|
  {
    if fs == [] then [] else Keys(pl, fs[..|fs| - 1]) + [KeyOf(pl, fs[|fs| - 1])]
  }

  lemma {:induction false} KeysAt(pl: Platform, fs: seq<FileItem>)
    ensures forall i :: 0 <= i < |fs| ==> Keys(pl, fs)[i] == KeyOf(pl, fs[i])
  {
    if fs != [] {
      KeysAt(pl, fs[..|fs| - 1]);
    }
  }

  /** The key set holds exactly the keys of the entries. */
  lemma {:induction false} KeySetOfKeys(pl: Platform, fs: seq<FileItem>)
    ensures forall k :: k in KeySet(pl, fs) <==> k in Keys(pl, fs)
  {
    if fs != [] {
      KeySetOfKeys(pl, fs[..|fs| - 1]);
    }
  }

  /** Position `j` of `ks` holds the last occurrence of its key. */
  predicate LastOf(ks: seq<string>, j: int) {
    0 <= j < |ks| && forall j' :: j < j' < |ks| ==> ks[j'] != ks[j]
  }

  /** For a repeated right key the dict keeps the last entry: the entry at
      the last position of each key is the value indexed under it. */
  lemma {:induction false} IndexKeepsLast(pl: Platform, rights: seq<FileItem>)
    ensures var ks := Keys(pl, rights);
      forall j :: LastOf(ks, j) ==>
        ks[j] in BuildIndex(pl, rights).entries && BuildIndex(pl, rights).entries[ks[j]] == rights[j]
  {
    if rights != [] {
      var init := rights[..|rights| - 1];
      var n := |rights| - 1;
      var ks := Keys(pl, rights);
      IndexKeepsLast(pl, init);
      assert rights == init + [rights[n]];
      assert ks == Keys(pl, init) + [ks[n]];
      KeepsLastStep(ks, Keys(pl, init), rights, init,
                    BuildIndex(pl, init).entries, BuildIndex(pl, rights).entries);
    }
  }

  /** `IndexKeepsLast` for one more right entry, over the key sequence. */
  lemma KeepsLastStep(ks: seq<string>, ki: seq<string>, rights: seq<FileItem>, init: seq<FileItem>,
                      prev: map<string, FileItem>, cur: map<string, FileItem>)
    requires |ks| > 0 && ks == ki + [ks[|ks| - 1]]
    requires |rights| == |ks| && rights == init + [rights[|rights| - 1]]
    requires cur == prev[ks[|ks| - 1] := rights[|rights| - 1]]
    requires forall j :: LastOf(ki, j) ==> ki[j] in prev && prev[ki[j]] == init[j]
    ensures forall j :: LastOf(ks, j) ==> ks[j] in cur && cur[ks[j]] == rights[j]
  {
    var n := |ks| - 1;
    forall j | LastOf(ks, j)
      ensures ks[j] in cur && cur[ks[j]] == rights[j]
    {
      if j < n {
        assert ks[n] != ks[j];
        assert LastOf(ki, j) by {
          forall j' | j < j' < |ki| ensures ki[j'] != ki[j] {
            assert ki[j'] == ks[j'] && ki[j] == ks[j];
          }
        }
        assert ki[j] == ks[j] && rights[j] == init[j];
      }
    }
  }

  /** Conversely, every indexed value is the last right entry with its key. */
  lemma {:induction false} IndexHoldsLast(pl: Platform, rights: seq<FileItem>)
    ensures var ks := Keys(pl, rights);
      forall k :: k in BuildIndex(pl, rights).entries ==>
        exists j :: LastOf(ks, j) && ks[j] == k && rights[j] == BuildIndex(pl, rights).entries[k]
  {
    if rights != [] {
      var init := rights[..|rights| - 1];
      var n := |rights| - 1;
      var ks := Keys(pl, rights);
      IndexHoldsLast(pl, init);
      assert rights == init + [rights[n]];
      assert ks == Keys(pl, init) + [ks[n]];
      HoldsLastStep(ks, Keys(pl, init), rights, init,
                    BuildIndex(pl, init).entries, BuildIndex(pl, rights).entries);
    }
  }

  /** `IndexHoldsLast` for one more right entry, over the key sequence. */
  lemma HoldsLastStep(ks: seq<string>, ki: seq<string>, rights: seq<FileItem>, init: seq<FileItem>,
                      prev: map<string, FileItem>, cur: map<string, FileItem>)
    requires |ks| > 0 && ks == ki + [ks[|ks| - 1]]
    requires |rights| == |ks| && rights == init + [rights[|rights| - 1]]
    requires cur == prev[ks[|ks| - 1] := rights[|rights| - 1]]
    requires forall k :: k in prev ==> exists j :: LastOf(ki, j) && ki[j] == k && init[j] == prev[k]
    ensures forall k :: k in cur ==> exists j :: LastOf(ks, j) && ks[j] == k && rights[j] == cur[k]
  {
    var n := |ks| - 1;
    forall k | k in cur
      ensures exists j :: LastOf(ks, j) && ks[j] == k && rights[j] == cur[k]
    {
      if k != ks[n] {
        var j :| LastOf(ki, j) && ki[j] == k && init[j] == prev[k];
        assert LastOf(ks, j) by {
          forall j' | j < j' < |ks| ensures ks[j'] != ks[j] {
            if j' < n {
              assert ks[j'] == ki[j'];
            }
          }
        }
        assert rights[j] == init[j];
        assert ks[j] == k && rights[j] == cur[k];
      } else {
        assert LastOf(ks, n) && ks[n] == k && rights[n] == cur[k];
      }
    }
  }

  /** The position of the first occurrence of `k` in `ks`. */
  function FirstAt(ks: seq<string>, k: string): (i: nat)
    requires k in ks
    ensures i < |ks| && ks[i] == k
    ensures forall j :: 0 <= j < i ==> ks[j] != k
  {
    if ks[0] == k then 0 else 1 + FirstAt(ks[1..], k)
  }

  /** Appending a key leaves the first occurrence of every earlier key
      where it was. */
  lemma FirstAtSnoc(ks: seq<string>, x: string, k: string)
    requires k in ks
    ensures FirstAt(ks + [x], k) == FirstAt(ks, k)
  {
    var i := FirstAt(ks, k);
    var i' := FirstAt(ks + [x], k);
    assert (ks + [x])[i] == k;
    assert i' <= i;
  }

  /** For a repeated right key the dict keeps the place of its first
      insertion: the order holds exactly the right keys, each at the rank
      of its first occurrence in the right listing. */
  lemma {:induction false} IndexFirstOrder(pl: Platform, rights: seq<FileItem>)
    ensures var ks := Keys(pl, rights);
      var order := BuildIndex(pl, rights).order;
      && (forall k :: k in order <==> k in ks)
      && forall p, q :: 0 <= p < q < |order| ==> FirstAt(ks, order[p]) < FirstAt(ks, order[q])
  {
    if rights != [] {
      var init := rights[..|rights| - 1];
      var n := |rights| - 1;
      var ks := Keys(pl, rights);
      var prev := BuildIndex(pl, init);
      IndexFirstOrder(pl, init);
      assert ks == Keys(pl, init) + [ks[n]];
      if ks[n] in prev.entries {
        assert BuildIndex(pl, rights).order == prev.order;
        FirstOrderKept(ks, Keys(pl, init), prev.order);
      } else {
        assert BuildIndex(pl, rights).order == prev.order + [ks[n]];
        FirstOrderGrown(ks, Keys(pl, init), prev.order);
      }
    }
  }

  /** `IndexFirstOrder`'s step when the last key is already in the order. */
  lemma FirstOrderKept(ks: seq<string>, ki: seq<string>, order: seq<string>)
    requires |ks| > 0 && ks == ki + [ks[|ks| - 1]]
    requires ks[|ks| - 1] in order
    requires forall k :: k in order <==> k in ki
    requires forall p, q :: 0 <= p < q < |order| ==> FirstAt(ki, order[p]) < FirstAt(ki, order[q])
    ensures forall k :: k in order <==> k in ks
    ensures forall p, q :: 0 <= p < q < |order| ==> FirstAt(ks, order[p]) < FirstAt(ks, order[q])
  {
    var x := ks[|ks| - 1];
    forall p, q | 0 <= p < q < |order| ensures FirstAt(ks, order[p]) < FirstAt(ks, order[q]) {
      FirstAtSnoc(ki, x, order[p]);
      FirstAtSnoc(ki, x, order[q]);
    }
  }

  /** `IndexFirstOrder`'s step when the last key is new and joins the end of
      the order. */
  lemma FirstOrderGrown(ks: seq<string>, ki: seq<string>, prev: seq<string>)
    requires |ks| > 0 && ks == ki + [ks[|ks| - 1]]
    requires ks[|ks| - 1] !in prev
    requires forall k :: k in prev <==> k in ki
    requires forall p, q :: 0 <= p < q < |prev| ==> FirstAt(ki, prev[p]) < FirstAt(ki, prev[q])
    ensures var order := prev + [ks[|ks| - 1]];
      && (forall k :: k in order <==> k in ks)
      && forall p, q :: 0 <= p < q < |order| ==> FirstAt(ks, order[p]) < FirstAt(ks, order[q])
  {
    var x := ks[|ks| - 1];
    var order := prev + [x];
    forall p, q | 0 <= p < q < |order| ensures FirstAt(ks, order[p]) < FirstAt(ks, order[q]) {
      assert order[p] == prev[p] && prev[p] in ki;
      FirstAtSnoc(ki, x, prev[p]);
      if q < |prev| {
        assert order[q] == prev[q];
        FirstAtSnoc(ki, x, prev[q]);
      } else {
        assert x !in ki && ks[|ki|] == x;
      }
    }
  }

  /** The keys of `order` not in `gone`, in order. */
  function Without(order: seq<string>, gone: set<string>): (r: seq<string>)
    ensures forall k :: k in r <==> k in order && k !in gone
    ensures Distinct(order) ==> Distinct(r)
  {
    if order == [] then []
    else
      var rest := Without(order[1..], gone);
      assert forall k :: k in order[1..] ==> k in order;
      if order[0] in gone then rest else [order[0]] + rest
  }

  /** `del d[k]`. */
  function Delete(ix: Index, k: string): Index {
    Index(Without(ix.order, {k}), ix.entries - {k})
  }

  /** The values of the index in key order: iterating `d.values()`. */
  function Values(order: seq<string>, m: map<string, FileItem>): seq<FileItem>
    requires forall k :: k in order ==> k in m
  {
    if order == [] then [] else [m[order[0]]] + Values(order[1..], m)
  }

  // ---------------------------------------------------------------- the classification

  /** Whether a left entry, coming after the left entries `seen`, finds its
      key still in the index: the right side has the key and no earlier left
      entry has taken it. */
  predicate Matches(pl: Platform, ix: Index, seen: seq<FileItem>, lf: FileItem) {
    KeyOf(pl, lf) in ix.entries && KeyOf(pl, lf) !in KeySet(pl, seen)
  }

  /** The left entries that find no partner, in left order. */
  function LeftOnlyOf(pl: Platform, left: seq<FileItem>, ix: Index): seq<FileItem> {
    if left == [] then []
    else
      var init := left[..|left| - 1];
      var lf := left[|left| - 1];
      LeftOnlyOf(pl, init, ix) + (if Matches(pl, ix, init, lf) then [] else [lf])
  }

  /** The matched pairs that are different (`want` true) or the same
      (`want` false), in left order. */
  function PairsOf(pl: Platform, criteria: seq<string>, left: seq<FileItem>, ix: Index, want: bool)
    : seq<(FileItem, FileItem)>
  {
    if left == [] then []
    else
      var init := left[..|left| - 1];
      var lf := left[|left| - 1];
      PairsOf(pl, criteria, init, ix, want)
        + (if Matches(pl, ix, init, lf) && Differs(criteria, lf, ix.entries[KeyOf(pl, lf)]) == want
           then [(lf, ix.entries[KeyOf(pl, lf)])] else [])
  }

  /** The right entries whose key no left entry has, in index order. */
  function RightOnlyOf(pl: Platform, left: seq<FileItem>, ix: Index): seq<FileItem>
    requires IndexValid(ix)
  {
    Values(Without(ix.order, KeySet(pl, left)), ix.entries)
  }

  /** The comparison of two listings as a whole. */
  function Classify(pl: Platform, criteria: seq<string>, left: seq<FileItem>, right: seq<FileItem>)
    : ComparisonResult
  {
    var ix := BuildIndex(pl, right);
    ComparisonResult(LeftOnlyOf(pl, left, ix), RightOnlyOf(pl, left, ix),
                     PairsOf(pl, criteria, left, ix, true), PairsOf(pl, criteria, left, ix, false))
  }

  // ---------------------------------------------------------------- the loop

  lemma {:induction false} WithoutNothing(order: seq<string>)
    ensures Without(order, {}) == order
  {
    if order != [] {
      WithoutNothing(order[1..]);
    }
  }

  lemma {:induction false} WithoutMore(order: seq<string>, gone: set<string>, k: string)
    ensures Without(Without(order, gone), {k}) == Without(order, gone + {k})
  {
    if order != [] {
      WithoutMore(order[1..], gone, k);
    }
  }

  lemma {:induction false} WithoutAbsent(order: seq<string>, gone: set<string>, k: string)
    requires k !in order || k in gone
    ensures Without(order, gone + {k}) == Without(order, gone)
  {
    if order != [] {
      assert k !in order[1..] || k in gone;
      WithoutAbsent(order[1..], gone, k);
    }
  }

  /** One step of the classification loop on the index: looking up `k`
      and deleting it when present leaves the index with the keys of
      `gone` and `k` removed. */
  lemma DeleteStep(ix: Index, rd: Index, gone: set<string>, k: string)
    requires IndexValid(ix)
    requires rd.order == Without(ix.order, gone) && rd.entries == ix.entries - gone
    ensures k in rd.entries ==>
      Delete(rd, k).order == Without(ix.order, gone + {k}) && Delete(rd, k).entries == ix.entries - (gone + {k})
    ensures k !in rd.entries ==>
      rd.order == Without(ix.order, gone + {k}) && rd.entries == ix.entries - (gone + {k})
  {
    if k in rd.entries {
      DeleteHit(ix.order, ix.entries, gone, k);
    } else {
      assert k !in ix.order || k in gone;
      DeleteMiss(ix.order, ix.entries, gone, k);
    }
  }

  lemma DeleteHit(order: seq<string>, entries: map<string, FileItem>, gone: set<string>, k: string)
    ensures Without(Without(order, gone), {k}) == Without(order, gone + {k})
    ensures (entries - gone) - {k} == entries - (gone + {k})
  {
    WithoutMore(order, gone, k);
  }

  lemma DeleteMiss(order: seq<string>, entries: map<string, FileItem>, gone: set<string>, k: string)
    requires k !in order || k in gone
    requires k !in entries - gone
    ensures Without(order, gone) == Without(order, gone + {k})
    ensures entries - gone == entries - (gone + {k})
  {
    WithoutAbsent(order, gone, k);
  }

  /** The criteria check on one matched pair: each chosen criterion the
      pair violates marks it different. */
  method IsDifferent(criteria: seq<string>, lf: FileItem, rf: FileItem) returns (isDifferent: bool)
    ensures isDifferent == Differs(criteria, lf, rf)
  {
    isDifferent := false;
    if "isim" in criteria && lf.name != rf.name { isDifferent := true; }
    if "boyut" in criteria && !lf.isDir && !rf.isDir && lf.size != rf.size { isDifferent := true; }
    if "tarih" in criteria && lf.modified != rf.modified { isDifferent := true; }
  }

  /** One more left entry: how the keys taken and the three buckets grow. */
  lemma ClassifyStep(pl: Platform, criteria: seq<string>, left: seq<FileItem>, ix: Index, i: nat)
    requires i < |left|
    ensures KeySet(pl, left[..i + 1]) == KeySet(pl, left[..i]) + {KeyOf(pl, left[i])}
    ensures LeftOnlyOf(pl, left[..i + 1], ix)
         == LeftOnlyOf(pl, left[..i], ix) + (if Matches(pl, ix, left[..i], left[i]) then [] else [left[i]])
    ensures PairsOf(pl, criteria, left[..i + 1], ix, true)
         == PairsOf(pl, criteria, left[..i], ix, true)
            + (if Matches(pl, ix, left[..i], left[i]) && Differs(criteria, left[i], ix.entries[KeyOf(pl, left[i])])
               then [(left[i], ix.entries[KeyOf(pl, left[i])])] else [])
    ensures PairsOf(pl, criteria, left[..i + 1], ix, false)
         == PairsOf(pl, criteria, left[..i], ix, false)
            + (if Matches(pl, ix, left[..i], left[i]) && !Differs(criteria, left[i], ix.entries[KeyOf(pl, left[i])])
               then [(left[i], ix.entries[KeyOf(pl, left[i])])] else [])
  {
    assert left[..i + 1][..i] == left[..i];
  }

  lemma {:induction false} ValuesAgree(order: seq<string>, m1: map<string, FileItem>, m2: map<string, FileItem>)
    requires forall k :: k in order ==> k in m1 && k in m2 && m1[k] == m2[k]
    ensures Values(order, m1) == Values(order, m2)
  {
    if order != [] {
      assert forall k :: k in order[1..] ==> k in order;
      ValuesAgree(order[1..], m1, m2);
    }
  }

  /** `list(d.values())`: the values of an index in key order. */
  method RemainingValues(rd: Index) returns (vs: seq<FileItem>)
    requires IndexValid(rd)
    ensures vs == Values(rd.order, rd.entries)
  {
    vs := [];
    for j := 0 to |rd.order|
      invariant vs + Values(rd.order[j..], rd.entries) == Values(rd.order, rd.entries)
    {
      assert rd.order[j..][1..] == rd.order[j + 1..];
      vs := vs + [rd.entries[rd.order[j]]];
    }
  }

  /** The classification loop, then the loop over what is left in the
      index; the buckets are those of `Classify`. */
  method CompareListings(pl: Platform, criteria: seq<string>, leftFiles: seq<FileItem>, rightFiles: seq<FileItem>)
    returns (result: ComparisonResult)
    ensures result == Classify(pl, criteria, leftFiles, rightFiles)
  {
    var rightDict := BuildIndex(pl, rightFiles);
    ghost var ix := rightDict;
    WithoutNothing(ix.order);
    var leftOnly: seq<FileItem> := [];
    var different: seq<(FileItem, FileItem)> := [];
    var same: seq<(FileItem, FileItem)> := [];
    for i := 0 to |leftFiles|
      invariant rightDict.order == Without(ix.order, KeySet(pl, leftFiles[..i]))
      invariant rightDict.entries == ix.entries - KeySet(pl, leftFiles[..i])
      invariant leftOnly == LeftOnlyOf(pl, leftFiles[..i], ix)
      invariant different == PairsOf(pl, criteria, leftFiles[..i], ix, true)
      invariant same == PairsOf(pl, criteria, leftFiles[..i], ix, false)
    {
      var lf := leftFiles[i];
      var leftKey := KeyOf(pl, lf);
      ClassifyStep(pl, criteria, leftFiles, ix, i);
      DeleteStep(ix, rightDict, KeySet(pl, leftFiles[..i]), leftKey);
      if leftKey in rightDict.entries {
        var rf := rightDict.entries[leftKey];
        var isDifferent := IsDifferent(criteria, lf, rf);
        if isDifferent {
          different := different + [(lf, rf)];
        } else {
          same := same + [(lf, rf)];
        }
        rightDict := Delete(rightDict, leftKey);
      } else {
        leftOnly := leftOnly + [lf];
      }
    }
    assert leftFiles[..|leftFiles|] == leftFiles;
    var rightOnly := RemainingValues(rightDict);
    ValuesAgree(rightDict.order, rightDict.entries, ix.entries);
    result := ComparisonResult(leftOnly, rightOnly, different, same);
  }

  // ---------------------------------------------------------------- properties of the classification

  function LeftsOf(pairs: seq<(FileItem, FileItem)>): (ls: seq<FileItem>)
    ensures |ls| == |pairs|
  {
    if pairs == [] then [] else LeftsOf(pairs[..|pairs| - 1]) + [pairs[|pairs| - 1].0]
  }

  function RightsOf(pairs: seq<(FileItem, FileItem)>): (rs: seq<FileItem>)
    ensures |rs| == |pairs|
  {
    if pairs == [] then [] else RightsOf(pairs[..|pairs| - 1]) + [pairs[|pairs| - 1].1]
  }

  lemma SidesOfAppend(pairs: seq<(FileItem, FileItem)>, more: seq<(FileItem, FileItem)>)
    requires |more| <= 1
    ensures LeftsOf(pairs + more) == LeftsOf(pairs) + LeftsOf(more)
    ensures RightsOf(pairs + more) == RightsOf(pairs) + RightsOf(more)
  {
    if more != [] {
      assert (pairs + more)[..|pairs|] == pairs;
    } else {
      assert pairs + more == pairs;
    }
  }

  /** The last left entry adds itself to one bucket and changes nothing
      else. */
  lemma LastEntryStep(pl: Platform, criteria: seq<string>, left: seq<FileItem>, ix: Index)
    requires left != []
    ensures var init := left[..|left| - 1];
      var lf := left[|left| - 1];
      var k := KeyOf(pl, lf);
      var m := Matches(pl, ix, init, lf);
      && LeftOnlyOf(pl, left, ix) == LeftOnlyOf(pl, init, ix) + (if m then [] else [lf])
      && PairsOf(pl, criteria, left, ix, true) == PairsOf(pl, criteria, init, ix, true)
           + (if m && Differs(criteria, lf, ix.entries[k]) then [(lf, ix.entries[k])] else [])
      && PairsOf(pl, criteria, left, ix, false) == PairsOf(pl, criteria, init, ix, false)
           + (if m && !Differs(criteria, lf, ix.entries[k]) then [(lf, ix.entries[k])] else [])
  {
  }

  lemma Combine(a: multiset<FileItem>, b: multiset<FileItem>, c: multiset<FileItem>,
                x: multiset<FileItem>, y: multiset<FileItem>, z: multiset<FileItem>,
                total: multiset<FileItem>, more: multiset<FileItem>)
    requires a + b + c == total && x + y + z == more
    ensures (a + x) + (b + y) + (c + z) == total + more
  {
    assert forall e :: ((a + x) + (b + y) + (c + z))[e] == (total + more)[e];
  }

  lemma MoveBetween(a: multiset<FileItem>, b: multiset<FileItem>, c: multiset<FileItem>,
                 a': multiset<FileItem>, y: multiset<FileItem>, z: multiset<FileItem>,
                 total: multiset<FileItem>)
    requires a + b + c == total && a' + (y + z) == a
    ensures a' + (b + y) + (c + z) == total
  {
    assert forall e :: (a' + (b + y) + (c + z))[e] == total[e];
  }

  /** Every left entry lands in exactly one bucket: left-only, or the left
      side of a different or a same pair. */
  lemma {:induction false} LeftPartition(pl: Platform, criteria: seq<string>, left: seq<FileItem>, ix: Index)
    ensures multiset(LeftOnlyOf(pl, left, ix))
          + multiset(LeftsOf(PairsOf(pl, criteria, left, ix, true)))
          + multiset(LeftsOf(PairsOf(pl, criteria, left, ix, false))) == multiset(left)
  {
    if left != [] {
      var init := left[..|left| - 1];
      var lf := left[|left| - 1];
      var k := KeyOf(pl, lf);
      var m := Matches(pl, ix, init, lf);
      var rf := if m then ix.entries[k] else lf;
      var d := m && Differs(criteria, lf, rf);
      var lo := if m then [] else [lf];
      var dm := if m && d then [(lf, rf)] else [];
      var sm := if m && !d then [(lf, rf)] else [];
      var pd := PairsOf(pl, criteria, init, ix, true);
      var ps := PairsOf(pl, criteria, init, ix, false);
      LeftPartition(pl, criteria, init, ix);
      assert LeftOnlyOf(pl, left, ix) == LeftOnlyOf(pl, init, ix) + lo
          && PairsOf(pl, criteria, left, ix, true) == pd + dm
          && PairsOf(pl, criteria, left, ix, false) == ps + sm by {
        LastEntryStep(pl, criteria, left, ix);
      }
      assert LeftsOf(pd + dm) == LeftsOf(pd) + LeftsOf(dm) by { SidesOfAppend(pd, dm); }
      assert LeftsOf(ps + sm) == LeftsOf(ps) + LeftsOf(sm) by { SidesOfAppend(ps, sm); }
      assert multiset(lo) + multiset(LeftsOf(dm)) + multiset(LeftsOf(sm)) == multiset{lf} by {
        OneBucket(lf, rf, m, d);
      }
      MultisetSnoc(left);
      Combine(multiset(LeftOnlyOf(pl, init, ix)), multiset(LeftsOf(pd)), multiset(LeftsOf(ps)),
              multiset(lo), multiset(LeftsOf(dm)), multiset(LeftsOf(sm)), multiset(init), multiset{lf});
    }
  }

  /** What a left entry does to the remaining right entries: a match
      takes its partner out, anything else leaves them as they were. */
  lemma RightStep(ix: Index, gone: set<string>, k: string, m: bool, rf: FileItem)
    requires IndexValid(ix)
    requires m <==> k in ix.entries && k !in gone
    requires m ==> rf == ix.entries[k]
    ensures multiset(Values(Without(ix.order, gone + {k}), ix.entries)) + (if m then multiset{rf} else multiset{})
         == multiset(Values(Without(ix.order, gone), ix.entries))
  {
    if m {
      ValuesWithoutOne(ix.order, ix.entries, gone, k);
    } else {
      WithoutAbsent(ix.order, gone, k);
    }
  }

  lemma LastSplit(s: seq<FileItem>)
    requires s != []
    ensures s == s[..|s| - 1] + [s[|s| - 1]]
  {
  }

  lemma MultisetSnoc(s: seq<FileItem>)
    requires s != []
    ensures multiset(s) == multiset(s[..|s| - 1]) + multiset{s[|s| - 1]}
  {
    assert s == s[..|s| - 1] + [s[|s| - 1]];
  }

  /** A matched or unmatched left entry goes to exactly one bucket, and its
      partner (when matched) to exactly one pair. */
  lemma OneBucket(lf: FileItem, rf: FileItem, m: bool, d: bool)
    ensures var lo := if m then [] else [lf];
      var dm := if m && d then [(lf, rf)] else [];
      var sm := if m && !d then [(lf, rf)] else [];
      && multiset(lo) + multiset(LeftsOf(dm)) + multiset(LeftsOf(sm)) == multiset{lf}
      && multiset(RightsOf(dm)) + multiset(RightsOf(sm)) == if m then multiset{rf} else multiset{}
  {
    assert LeftsOf([(lf, rf)]) == [lf] && RightsOf([(lf, rf)]) == [rf];
  }

  lemma {:induction false} ValuesSnoc(order: seq<string>, k: string, m: map<string, FileItem>)
    requires forall j :: j in order + [k] ==> j in m
    ensures Values(order + [k], m) == Values(order, m) + [m[k]]
  {
    if order != [] {
      assert (order + [k])[1..] == order[1..] + [k];
      ValuesSnoc(order[1..], k, m);
    }
  }

  lemma ValuesCons(x: string, rest: seq<string>, m: map<string, FileItem>)
    requires x in m && forall j :: j in rest ==> j in m
    ensures multiset(Values([x] + rest, m)) == multiset{m[x]} + multiset(Values(rest, m))
  {
    assert ([x] + rest)[1..] == rest;
  }

  /** The entries left of `order` once `gone` is removed, as one step of
      `Without` on the first key. */
  lemma WithoutHead(order: seq<string>, gone: set<string>)
    requires order != []
    ensures order[0] in gone ==> Without(order, gone) == Without(order[1..], gone)
    ensures order[0] !in gone ==> Without(order, gone) == [order[0]] + Without(order[1..], gone)
  {
  }

  /** Removing one more present key from what is left of the index takes
      exactly its value out of the remaining values. */
  lemma {:induction false} ValuesWithoutOne(order: seq<string>, m: map<string, FileItem>, gone: set<string>, k: string)
    requires Distinct(order) && (forall j :: j in order ==> j in m)
    requires k in order && k !in gone
    ensures multiset(Values(Without(order, gone), m))
         == multiset(Values(Without(order, gone + {k}), m)) + multiset{m[k]}
  {
    var rest := order[1..];
    assert Distinct(rest) && forall j :: j in rest ==> j in order;
    if order[0] == k {
      assert k !in rest;
      WithoutAbsent(rest, gone, k);
      HeadRemoved(order, m, gone, k);
    } else {
      ValuesWithoutOne(rest, m, gone, k);
      HeadKept(order, m, gone, k);
    }
  }

  /** The key removed is the first one of the order. */
  lemma HeadRemoved(order: seq<string>, m: map<string, FileItem>, gone: set<string>, k: string)
    requires order != [] && order[0] == k && k !in gone && (forall j :: j in order ==> j in m)
    requires Without(order[1..], gone + {k}) == Without(order[1..], gone)
    ensures multiset(Values(Without(order, gone), m))
         == multiset(Values(Without(order, gone + {k}), m)) + multiset{m[k]}
  {
    WithoutHead(order, gone);
    WithoutHead(order, gone + {k});
    ValuesCons(k, Without(order[1..], gone), m);
  }

  /** The key removed comes later in the order than the first one. */
  lemma HeadKept(order: seq<string>, m: map<string, FileItem>, gone: set<string>, k: string)
    requires order != [] && order[0] != k && k in m && (forall j :: j in order ==> j in m)
    requires multiset(Values(Without(order[1..], gone), m))
          == multiset(Values(Without(order[1..], gone + {k}), m)) + multiset{m[k]}
    ensures multiset(Values(Without(order, gone), m))
         == multiset(Values(Without(order, gone + {k}), m)) + multiset{m[k]}
  {
    WithoutHead(order, gone);
    WithoutHead(order, gone + {k});
    if order[0] !in gone {
      ValuesCons(order[0], Without(order[1..], gone), m);
      ValuesCons(order[0], Without(order[1..], gone + {k}), m);
    }
  }

  /** The right-only entries and the right sides of the pairs together are
      the values of the index, each once. */
  lemma {:induction false} RightPartition(pl: Platform, criteria: seq<string>, left: seq<FileItem>, ix: Index)
    requires IndexValid(ix)
    ensures multiset(RightOnlyOf(pl, left, ix))
          + multiset(RightsOf(PairsOf(pl, criteria, left, ix, true)))
          + multiset(RightsOf(PairsOf(pl, criteria, left, ix, false))) == multiset(Values(ix.order, ix.entries))
  {
    if left == [] {
      WithoutNothing(ix.order);
    } else {
      RightPartition(pl, criteria, left[..|left| - 1], ix);
      RightPartitionStep(pl, criteria, left, ix);
    }
  }

  /** The right-hand partition survives one more left entry. */
  lemma RightPartitionStep(pl: Platform, criteria: seq<string>, left: seq<FileItem>, ix: Index)
    requires IndexValid(ix) && left != []
    requires var init := left[..|left| - 1];
      multiset(RightOnlyOf(pl, init, ix))
          + multiset(RightsOf(PairsOf(pl, criteria, init, ix, true)))
          + multiset(RightsOf(PairsOf(pl, criteria, init, ix, false))) == multiset(Values(ix.order, ix.entries))
    ensures multiset(RightOnlyOf(pl, left, ix))
          + multiset(RightsOf(PairsOf(pl, criteria, left, ix, true)))
          + multiset(RightsOf(PairsOf(pl, criteria, left, ix, false))) == multiset(Values(ix.order, ix.entries))
  {
    var init := left[..|left| - 1];
    var lf := left[|left| - 1];
    var m := Matches(pl, ix, init, lf);
    var rf := if m then ix.entries[KeyOf(pl, lf)] else lf;
    var d := m && Differs(criteria, lf, rf);
    PairedRights(pl, criteria, left, ix);
    RightOnlyStep(pl, left, ix);
    OneBucket(lf, rf, m, d);
    MoveBetween(multiset(RightOnlyOf(pl, init, ix)),
             multiset(RightsOf(PairsOf(pl, criteria, init, ix, true))),
             multiset(RightsOf(PairsOf(pl, criteria, init, ix, false))),
             multiset(RightOnlyOf(pl, left, ix)),
             multiset(RightsOf(if m && d then [(lf, rf)] else [])),
             multiset(RightsOf(if m && !d then [(lf, rf)] else [])),
             multiset(Values(ix.order, ix.entries)));
  }

  /** The last left entry's partner, if it has one, leaves the unmatched right entries. */
  lemma RightOnlyStep(pl: Platform, left: seq<FileItem>, ix: Index)
    requires IndexValid(ix) && left != []
    ensures var init := left[..|left| - 1];
      var lf := left[|left| - 1];
      var m := Matches(pl, ix, init, lf);
      multiset(RightOnlyOf(pl, left, ix)) + (if m then multiset{ix.entries[KeyOf(pl, lf)]} else multiset{})
        == multiset(RightOnlyOf(pl, init, ix))
  {
    var init := left[..|left| - 1];
    var k := KeyOf(pl, left[|left| - 1]);
    var m := Matches(pl, ix, init, left[|left| - 1]);
    assert KeySet(pl, left) == KeySet(pl, init) + {k};
    RightStep(ix, KeySet(pl, init), k, m, if m then ix.entries[k] else left[|left| - 1]);
  }

  /** The rights of both pair lists grow by the last entry's partner, if it has one. */
  lemma PairedRights(pl: Platform, criteria: seq<string>, left: seq<FileItem>, ix: Index)
    requires left != []
    ensures var init := left[..|left| - 1];
      var lf := left[|left| - 1];
      var m := Matches(pl, ix, init, lf);
      var rf := if m then ix.entries[KeyOf(pl, lf)] else lf;
      var d := m && Differs(criteria, lf, rf);
      && multiset(RightsOf(PairsOf(pl, criteria, left, ix, true)))
           == multiset(RightsOf(PairsOf(pl, criteria, init, ix, true)))
            + multiset(RightsOf(if m && d then [(lf, rf)] else []))
      && multiset(RightsOf(PairsOf(pl, criteria, left, ix, false)))
           == multiset(RightsOf(PairsOf(pl, criteria, init, ix, false)))
            + multiset(RightsOf(if m && !d then [(lf, rf)] else []))
  {
    var init := left[..|left| - 1];
    var lf := left[|left| - 1];
    var m := Matches(pl, ix, init, lf);
    var rf := if m then ix.entries[KeyOf(pl, lf)] else lf;
    var d := m && Differs(criteria, lf, rf);
    var dm := if m && d then [(lf, rf)] else [];
    var sm := if m && !d then [(lf, rf)] else [];
    var pd := PairsOf(pl, criteria, init, ix, true);
    var ps := PairsOf(pl, criteria, init, ix, false);
    LastEntryStep(pl, criteria, left, ix);
    SidesOfAppend(pd, dm);
    SidesOfAppend(ps, sm);
  }

  lemma {:induction false} KeySetWitness(pl: Platform, fs: seq<FileItem>, k: string)
    requires k in KeySet(pl, fs)
    ensures exists i :: 0 <= i < |fs| && KeyOf(pl, fs[i]) == k
  {
    var init := fs[..|fs| - 1];
    if k != KeyOf(pl, fs[|fs| - 1]) {
      KeySetWitness(pl, init, k);
      var i :| 0 <= i < |init| && KeyOf(pl, init[i]) == k;
      assert fs[i] == init[i];
    }
  }

  /** With unique keys, the last entry's key is not among the earlier ones,
      and every prefix has unique keys too. */
  lemma UniqueLast(pl: Platform, fs: seq<FileItem>)
    requires UniqueKeys(pl, fs) && fs != []
    ensures KeyOf(pl, fs[|fs| - 1]) !in KeySet(pl, fs[..|fs| - 1])
    ensures UniqueKeys(pl, fs[..|fs| - 1])
  {
    if KeyOf(pl, fs[|fs| - 1]) in KeySet(pl, fs[..|fs| - 1]) {
      KeySetWitness(pl, fs[..|fs| - 1], KeyOf(pl, fs[|fs| - 1]));
    }
  }

  /** Indexing one more entry under a new key appends it to the values. */
  lemma IndexSnoc(pl: Platform, rights: seq<FileItem>)
    requires rights != []
    requires KeyOf(pl, rights[|rights| - 1]) !in KeySet(pl, rights[..|rights| - 1])
    ensures Values(BuildIndex(pl, rights).order, BuildIndex(pl, rights).entries)
         == Values(BuildIndex(pl, rights[..|rights| - 1]).order, BuildIndex(pl, rights[..|rights| - 1]).entries)
            + [rights[|rights| - 1]]
  {
    var rf := rights[|rights| - 1];
    var k := KeyOf(pl, rf);
    var prev := BuildIndex(pl, rights[..|rights| - 1]);
    var m := prev.entries[k := rf];
    assert BuildIndex(pl, rights) == Index(prev.order + [k], m);
    ValuesSnoc(prev.order, k, m);
    ValuesAgree(prev.order, m, prev.entries);
  }

  /** When no two right entries share a key, the index holds every right
      entry, in listing order. */
  lemma {:induction false} IndexOfUniqueKeys(pl: Platform, right: seq<FileItem>)
    requires UniqueKeys(pl, right)
    ensures Values(BuildIndex(pl, right).order, BuildIndex(pl, right).entries) == right
  {
    if right != [] {
      var init := right[..|right| - 1];
      var last := right[|right| - 1];
      assert UniqueKeys(pl, init) && KeyOf(pl, last) !in KeySet(pl, init) by {
        UniqueLast(pl, right);
      }
      IndexOfUniqueKeys(pl, init);
      IndexSnoc(pl, right);
      LastSplit(right);
    }
  }

  /** The comparison partitions both listings: every left entry is
      left-only or the left side of exactly one pair, and (when no two right
      entries share a key) every right entry is right-only or the right side
      of exactly one pair. */
  lemma ComparePartitions(pl: Platform, criteria: seq<string>, left: seq<FileItem>, right: seq<FileItem>)
    ensures var r := Classify(pl, criteria, left, right);
      && multiset(r.leftOnly) + multiset(LeftsOf(r.different)) + multiset(LeftsOf(r.same)) == multiset(left)
      && |r.leftOnly| + |r.different| + |r.same| == |left|
    ensures var r := Classify(pl, criteria, left, right);
      UniqueKeys(pl, right) ==>
        && multiset(r.rightOnly) + multiset(RightsOf(r.different)) + multiset(RightsOf(r.same)) == multiset(right)
        && |r.rightOnly| + |r.different| + |r.same| == |right|
  {
    var ix := BuildIndex(pl, right);
    var r := Classify(pl, criteria, left, right);
    LeftPartition(pl, criteria, left, ix);
    assert |multiset(left)| == |r.leftOnly| + |r.different| + |r.same|;
    if UniqueKeys(pl, right) {
      RightPartition(pl, criteria, left, ix);
      IndexOfUniqueKeys(pl, right);
      assert |multiset(right)| == |r.rightOnly| + |r.different| + |r.same|;
    }
  }

  /** Every pair holds a left entry and the indexed right entry under the
      same key, and is classified by `Differs`. */
  lemma {:induction false} PairsKeyed(pl: Platform, criteria: seq<string>, left: seq<FileItem>, ix: Index, want: bool)
    ensures forall p :: p in PairsOf(pl, criteria, left, ix, want) ==>
      && p.0 in left && KeyOf(pl, p.0) in ix.entries && p.1 == ix.entries[KeyOf(pl, p.0)]
      && Differs(criteria, p.0, p.1) == want
  {
    if left != [] {
      var init := left[..|left| - 1];
      PairsKeyed(pl, criteria, init, ix, want);
      LastEntryStep(pl, criteria, left, ix);
      assert forall x :: x in init ==> x in left;
    }
  }

  lemma {:induction false} ValuesMembers(order: seq<string>, m: map<string, FileItem>)
    requires forall k :: k in order ==> k in m
    ensures forall x :: x in Values(order, m) ==> exists k :: k in order && k in m && m[k] == x
  {
    if order != [] {
      ValuesMembers(order[1..], m);
      assert forall k :: k in order[1..] ==> k in order;
    }
  }

  lemma {:induction false} LeftOnlyMembers(pl: Platform, left: seq<FileItem>, ix: Index)
    ensures forall x :: x in LeftOnlyOf(pl, left, ix) ==> x in left
  {
    if left != [] {
      var init := left[..|left| - 1];
      LeftOnlyMembers(pl, init, ix);
      assert forall x :: x in init ==> x in left;
    }
  }

  /** Left entry `i`, with keys `ks`, finds no partner in an index holding
      `keys`: its key is not indexed, or an earlier left entry has the same
      key and has already taken (deleted) it. */
  predicate Unpartnered(keys: set<string>, ks: seq<string>, i: int)
    requires 0 <= i < |ks|
  {
    ks[i] !in keys || FirstAt(ks, ks[i]) < i
  }

  lemma UnpartneredSnoc(keys: set<string>, ki: seq<string>, x: string)
    ensures forall i :: 0 <= i < |ki| ==> (Unpartnered(keys, ki + [x], i) <==> Unpartnered(keys, ki, i))
    ensures Unpartnered(keys, ki + [x], |ki|) <==> x !in keys || x in ki
  {
    forall i | 0 <= i < |ki| ensures Unpartnered(keys, ki + [x], i) <==> Unpartnered(keys, ki, i) {
      assert (ki + [x])[i] == ki[i] && ki[i] in ki;
      FirstAtSnoc(ki, x, ki[i]);
    }
    if x in ki {
      FirstAtSnoc(ki, x, x);
    } else {
      assert (ki + [x])[|ki|] == x;
    }
  }

  /** Every left entry, repeated keys included, is left-only exactly in the
      cases of `Unpartnered`: each unpartnered position lands in the
      left-only list, and everything in that list is an unpartnered
      position's entry. */
  lemma {:induction false} LeftOnlyExact(pl: Platform, left: seq<FileItem>, ix: Index)
    ensures var ks := Keys(pl, left);
      forall i :: 0 <= i < |left| && Unpartnered(ix.entries.Keys, ks, i) ==> left[i] in LeftOnlyOf(pl, left, ix)
    ensures var ks := Keys(pl, left);
      forall x :: x in LeftOnlyOf(pl, left, ix) ==>
        exists i :: 0 <= i < |left| && left[i] == x && Unpartnered(ix.entries.Keys, ks, i)
  {
    if left != [] {
      var init := left[..|left| - 1];
      var n := |left| - 1;
      var ki := Keys(pl, init);
      var ks := Keys(pl, left);
      LeftOnlyExact(pl, init, ix);
      KeySetOfKeys(pl, init);
      UnpartneredSnoc(ix.entries.Keys, ki, ks[n]);
      assert ks == ki + [ks[n]];
      assert left == init + [left[n]];
      LeftOnlyStep(ix.entries.Keys, ks, ki, left, init, LeftOnlyOf(pl, left, ix), LeftOnlyOf(pl, init, ix),
                   Matches(pl, ix, init, left[n]));
    }
  }

  /** `LeftOnlyExact` for one more left entry, over plain values. */
  lemma LeftOnlyStep(keys: set<string>, ks: seq<string>, ki: seq<string>, left: seq<FileItem>, init: seq<FileItem>,
                     lo: seq<FileItem>, loInit: seq<FileItem>, m: bool)
    requires |ks| > 0 && ks == ki + [ks[|ks| - 1]]
    requires |left| == |ks| && left == init + [left[|left| - 1]]
    requires lo == loInit + (if m then [] else [left[|left| - 1]])
    requires forall i :: 0 <= i < |ki| ==> (Unpartnered(keys, ks, i) <==> Unpartnered(keys, ki, i))
    requires Unpartnered(keys, ks, |ki|) <==> !m
    requires forall i :: 0 <= i < |init| && Unpartnered(keys, ki, i) ==> init[i] in loInit
    requires forall x :: x in loInit ==> exists i :: 0 <= i < |init| && init[i] == x && Unpartnered(keys, ki, i)
    ensures forall i :: 0 <= i < |left| && Unpartnered(keys, ks, i) ==> left[i] in lo
    ensures forall x :: x in lo ==> exists i :: 0 <= i < |left| && left[i] == x && Unpartnered(keys, ks, i)
  {
    var n := |left| - 1;
    forall i | 0 <= i < |left| && Unpartnered(keys, ks, i) ensures left[i] in lo {
      if i < n {
        assert left[i] == init[i];
      }
    }
    forall x | x in lo ensures exists i :: 0 <= i < |left| && left[i] == x && Unpartnered(keys, ks, i) {
      if x in loInit {
        var i :| 0 <= i < |init| && init[i] == x && Unpartnered(keys, ki, i);
        assert left[i] == x;
      } else {
        assert left[n] == x && Unpartnered(keys, ks, n);
      }
    }
  }

  /** When no two left entries share a key, a left entry is left-only
      exactly when the right side has no entry under its key. */
  lemma LeftOnlyUniqueKeys(pl: Platform, left: seq<FileItem>, ix: Index)
    requires UniqueKeys(pl, left)
    ensures forall i :: 0 <= i < |left| ==>
      (left[i] in LeftOnlyOf(pl, left, ix) <==> KeyOf(pl, left[i]) !in ix.entries)
  {
    var ks := Keys(pl, left);
    LeftOnlyExact(pl, left, ix);
    KeysAt(pl, left);
    forall i | 0 <= i < |left|
      ensures left[i] in LeftOnlyOf(pl, left, ix) <==> KeyOf(pl, left[i]) !in ix.entries
    {
      assert FirstAt(ks, ks[i]) == i;
      if left[i] in LeftOnlyOf(pl, left, ix) {
        var i' :| 0 <= i' < |left| && left[i'] == left[i] && Unpartnered(ix.entries.Keys, ks, i');
        assert i' == i;
      }
    }
  }

  /** What the comparison promises about each bucket: pairs join entries
      found under the same key on both sides, `different` exactly when a
      chosen criterion is violated; a right-only entry's key is on no left
      entry; and, when no two left entries share a key, a left entry is
      left-only exactly when no right entry has its key. */
  lemma BucketsByKey(pl: Platform, criteria: seq<string>, left: seq<FileItem>, right: seq<FileItem>)
    ensures var r := Classify(pl, criteria, left, right);
      forall p :: p in r.different ==>
        p.0 in left && p.1 in right && KeyOf(pl, p.0) == KeyOf(pl, p.1) && Differs(criteria, p.0, p.1)
    ensures var r := Classify(pl, criteria, left, right);
      forall p :: p in r.same ==>
        p.0 in left && p.1 in right && KeyOf(pl, p.0) == KeyOf(pl, p.1) && !Differs(criteria, p.0, p.1)
    ensures var r := Classify(pl, criteria, left, right);
      forall x :: x in r.rightOnly ==> x in right && KeyOf(pl, x) !in KeySet(pl, left)
    ensures var r := Classify(pl, criteria, left, right);
      UniqueKeys(pl, left) ==>
        forall i :: 0 <= i < |left| ==> (left[i] in r.leftOnly <==> KeyOf(pl, left[i]) !in KeySet(pl, right))
  {
    var ix := BuildIndex(pl, right);
    IndexedUnderOwnKey(pl, right);
    PairsKeyed(pl, criteria, left, ix, true);
    PairsKeyed(pl, criteria, left, ix, false);
    ValuesMembers(Without(ix.order, KeySet(pl, left)), ix.entries);
    if UniqueKeys(pl, left) {
      LeftOnlyUniqueKeys(pl, left, ix);
    }
  }

  /** The buckets with repeated keys on either side: a left entry is
      left-only exactly at an unpartnered position (its key absent on the
      right, or taken by an earlier left entry), and every right entry in a
      bucket is the last right entry with its key, so an earlier entry with
      a repeated right key is in no bucket. */
  lemma BucketsByPosition(pl: Platform, criteria: seq<string>, left: seq<FileItem>, right: seq<FileItem>)
    ensures var r := Classify(pl, criteria, left, right);
      forall i :: 0 <= i < |left| && Unpartnered(KeySet(pl, right), Keys(pl, left), i) ==> left[i] in r.leftOnly
    ensures var r := Classify(pl, criteria, left, right);
      forall x :: x in r.leftOnly ==>
        exists i :: 0 <= i < |left| && left[i] == x && Unpartnered(KeySet(pl, right), Keys(pl, left), i)
    ensures var r := Classify(pl, criteria, left, right);
      forall x :: x in r.rightOnly ==> exists j :: LastOf(Keys(pl, right), j) && right[j] == x
    ensures var r := Classify(pl, criteria, left, right);
      forall p :: p in r.different || p in r.same ==> exists j :: LastOf(Keys(pl, right), j) && right[j] == p.1
  {
    var ix := BuildIndex(pl, right);
    LeftOnlyExact(pl, left, ix);
    IndexHoldsLast(pl, right);
    PairsKeyed(pl, criteria, left, ix, true);
    PairsKeyed(pl, criteria, left, ix, false);
    ValuesMembers(Without(ix.order, KeySet(pl, left)), ix.entries);
  }
}

/** The order of string keys in a BTreeMap. */
module Ordering {

  /** Strict lexicographic order. */
  predicate Before(a: string, b: string) {
    if b == "" then false
    else if a == "" then true
    else if a[0] != b[0] then a[0] < b[0]
    else Before(a[1..], b[1..])
  }

  /** The first k characters agree, and then the first string ends or has the smaller character. */
  ghost predicate SplitsAt(a: string, b: string, k: nat) {
    && k <= |a| && k < |b| && a[..k] == b[..k] && (k == |a| || a[k] < b[k])
  }

  lemma SplitHead(a: string, b: string, k: nat)
    requires SplitsAt(a, b, k) && a != ""
    ensures if k == 0 then a[0] < b[0] else a[0] == b[0]
  {
    assert k == 0 || (a[..k][0] == a[0] && b[..k][0] == b[0]);
  }

  lemma {:induction false} BeforeExactly(a: string, b: string)
    ensures Before(a, b) <==> exists k: nat :: SplitsAt(a, b, k)
  {
    if a == "" || b == "" {
      if b != "" { assert SplitsAt(a, b, 0); }
    } else if a[0] != b[0] {
      if a[0] < b[0] { assert SplitsAt(a, b, 0); }
      if exists k: nat :: SplitsAt(a, b, k) {
        var k: nat :| SplitsAt(a, b, k);
        SplitHead(a, b, k);
      }
    } else {
      BeforeExactly(a[1..], b[1..]);
      if Before(a, b) {
        var k: nat :| SplitsAt(a[1..], b[1..], k);
        assert a[..k + 1] == [a[0]] + a[1..][..k] && b[..k + 1] == [b[0]] + b[1..][..k];
        assert SplitsAt(a, b, k + 1);
      }
      if exists k: nat :: SplitsAt(a, b, k) {
        var k: nat :| SplitsAt(a, b, k);
        SplitHead(a, b, k);
        assert a[1..][..k - 1] == a[..k][1..] && b[1..][..k - 1] == b[..k][1..];
        assert SplitsAt(a[1..], b[1..], k - 1);
      }
    }
  }

  lemma {:induction false} Trichotomy(a: string, b: string)
    ensures Before(a, b) || Before(b, a) || a == b
    ensures !(Before(a, b) && Before(b, a))
    ensures a == b ==> !Before(a, b)
    decreases |a|
  {
    if a != "" && b != "" && a[0] == b[0] {
      Trichotomy(a[1..], b[1..]);
      assert a == [a[0]] + a[1..] && b == [b[0]] + b[1..];
    }
  }

  lemma {:induction false} BeforeTransitive(a: string, b: string, c: string)
    requires Before(a, b) && Before(b, c)
    ensures Before(a, c)
    decreases |a|
  {
    if a != "" && a[0] == b[0] == c[0] {
      BeforeTransitive(a[1..], b[1..], c[1..]);
    }
  }

  ghost predicate Ascending(ids: seq<string>) {
    forall i, j | 0 <= i < j < |ids| :: Before(ids[i], ids[j])
  }

  /** Inserts a new key at its place. */
  function Insert(ids: seq<string>, id: string): (r: seq<string>)
    ensures forall x :: x in r <==> x == id || x in ids
    ensures |r| == |ids| + 1
  {
    if ids == [] then [id]
    else if Before(id, ids[0]) then [id] + ids
    else [ids[0]] + Insert(ids[1..], id)
  }

  lemma {:induction false} InsertAscending(ids: seq<string>, id: string)
    requires Ascending(ids) && id !in ids
    ensures Ascending(Insert(ids, id))
  {
    if ids == [] {
    } else {
      Trichotomy(id, ids[0]);
      var r := Insert(ids, id);
      if Before(id, ids[0]) {
        forall j | 0 <= j < |ids| ensures Before(id, ids[j]) {
          if j > 0 { BeforeTransitive(id, ids[0], ids[j]); }
        }
      } else {
        InsertAscending(ids[1..], id);
        forall j | 1 <= j < |r| ensures Before(ids[0], r[j]) {
          assert r[j] in Insert(ids[1..], id);
          if r[j] != id {
            var k :| 0 <= k < |ids[1..]| && ids[1..][k] == r[j];
            assert ids[k + 1] == r[j];
          }
        }
        forall i, j | 0 <= i < j < |r| ensures Before(r[i], r[j]) {
          if i > 0 {
            assert r[i] == Insert(ids[1..], id)[i - 1] && r[j] == Insert(ids[1..], id)[j - 1];
          }
        }
      }
    }
  }
}

/** The store's list of Coffee records as a value: what each controller operation does
    to the sequence of references, and the properties those effects have. Only the
    constant `id` field is consulted, so nothing here reads the heap. */
module CoffeeList {
  import opened Wrappers
  import opened CoffeeRecord

  /** Some record of `s` carries `id`. */
  predicate HasId(s: seq<Coffee>, id: string) {
    exists k | 0 <= k < |s| :: s[k].id == id
  }

  /** No two records of `s` share an id. */
  predicate UniqueIds(s: seq<Coffee>) {
    forall i, j | 0 <= i < j < |s| :: s[i].id != s[j].id
  }

  /** The record a scan in list order stops at: the first whose id is `id`. */
  function FirstWithId(s: seq<Coffee>, id: string): (r: Option<Coffee>)
    ensures r.None? <==> !HasId(s, id)
    ensures r.Some? ==> exists k | 0 <= k < |s| :: s[k] == r.value && r.value.id == id &&
                                                    forall j | 0 <= j < k :: s[j].id != id
  {
    if s == [] then None
    else if s[0].id == id then Some(s[0])
    else
      var r := FirstWithId(s[1..], id);
      if r.Some? then
        var k :| 0 <= k < |s[1..]| && s[1..][k] == r.value && r.value.id == id &&
                 forall j | 0 <= j < k :: s[1..][j].id != id;
        assert forall j | 0 <= j < k + 1 :: s[j].id != id by {
          forall j | 0 <= j < k + 1 ensures s[j].id != id {
            if j > 0 { assert s[j] == s[1..][j - 1]; }
          }
        }
        r
      else r
  }

  /** The first position of the very object `c` in `s` (reference equality, which is
      what a list's `indexOf` uses for a class without its own `equals`), or -1. */
  function IndexOf(s: seq<Coffee>, c: Coffee): (r: int)
    ensures -1 <= r < |s|
    ensures r == -1 <==> c !in s
    ensures r >= 0 ==> s[r] == c && c !in s[..r]
  {
    if s == [] then -1
    else if s[0] == c then 0
    else
      var r := IndexOf(s[1..], c);
      if r == -1 then -1
      else
        assert s[..r + 1] == [s[0]] + s[1..][..r];
        r + 1
  }

  /** `s` with every record whose id is `id` replaced by the reference `c`. */
  function Replaced(s: seq<Coffee>, id: string, c: Coffee): (r: seq<Coffee>)
    ensures |r| == |s|
    ensures forall k | 0 <= k < |s| :: r[k] == if s[k].id == id then c else s[k]
  {
    if s == [] then []
    else [if s[0].id == id then c else s[0]] + Replaced(s[1..], id, c)
  }

  /** The list after an update-or-append of `c` under the path id `id`: on a hit the
      length is kept and exactly the matching positions hold `c`; on a miss `c` is
      appended, as a create would. */
  function Upserted(s: seq<Coffee>, id: string, c: Coffee): (r: seq<Coffee>)
    ensures HasId(s, id) ==>
              |r| == |s| &&
              forall k | 0 <= k < |s| :: r[k] == if s[k].id == id then c else s[k]
    ensures !HasId(s, id) ==> r == s + [c]
  {
    if HasId(s, id) then Replaced(s, id, c) else s + [c]
  }

  /** `s` without the records whose id is `id`, the others kept in their order. */
  function Removed(s: seq<Coffee>, id: string): (r: seq<Coffee>)
    ensures |r| <= |s|
    ensures !HasId(r, id)
    ensures forall c | c in r :: c in s
    ensures forall k | 0 <= k < |s| && s[k].id != id :: s[k] in r
  {
    if s == [] then []
    else if s[0].id == id then Removed(s[1..], id)
    else [s[0]] + Removed(s[1..], id)
  }

  // ---------------------------------------------------------------------
  // Lookup

  /** The first match is unique: any record with `id` that no earlier record
      shares the id with is the one the scan returns. */
  lemma FirstWithIdAt(s: seq<Coffee>, id: string, k: nat)
    requires k < |s| && s[k].id == id
    requires forall j | 0 <= j < k :: s[j].id != id
    ensures FirstWithId(s, id) == Some(s[k])
  {
  }

  /** Lookup after an append: an earlier match still wins; otherwise the appended
      record is found exactly when it carries the id. */
  lemma {:induction false} FirstWithIdAppend(s: seq<Coffee>, c: Coffee, id: string)
    ensures FirstWithId(s + [c], id) ==
            if HasId(s, id) then FirstWithId(s, id)
            else if c.id == id then Some(c) else None
  {
    if s != [] {
      assert (s + [c])[1..] == s[1..] + [c];
      FirstWithIdAppend(s[1..], c, id);
      if s[0].id != id {
        assert HasId(s, id) <==> HasId(s[1..], id) by {
          if HasId(s, id) {
            var k :| 0 <= k < |s| && s[k].id == id;
            assert s[1..][k - 1].id == id;
          }
          if HasId(s[1..], id) {
            var k :| 0 <= k < |s[1..]| && s[1..][k].id == id;
            assert s[k + 1].id == id;
          }
        }
      }
    }
  }

  // ---------------------------------------------------------------------
  // Create

  /** After appending a record, a lookup of its id finds it unless an older record
      already had that id, in which case the older one is found. */
  lemma LookupAfterPost(s: seq<Coffee>, c: Coffee)
    ensures FirstWithId(s + [c], c.id) == if HasId(s, c.id) then FirstWithId(s, c.id) else Some(c)
  {
    FirstWithIdAppend(s, c, c.id);
  }

  /** Appending keeps ids unique exactly when the new record's id is not yet used. */
  lemma PostKeepsUniqueIds(s: seq<Coffee>, c: Coffee)
    requires UniqueIds(s)
    ensures UniqueIds(s + [c]) <==> !HasId(s, c.id)
  {
    if HasId(s, c.id) {
      var k :| 0 <= k < |s| && s[k].id == c.id;
      assert (s + [c])[k].id == (s + [c])[|s|].id;
    }
  }

  // ---------------------------------------------------------------------
  // Update-or-append

  /** When the body carries the path id, a lookup of that id afterwards finds the body. */
  lemma {:induction false} LookupAfterPut(s: seq<Coffee>, id: string, c: Coffee)
    requires c.id == id
    ensures FirstWithId(Upserted(s, id, c), id) == Some(c)
  {
    if HasId(s, id) {
      var r := Replaced(s, id, c);
      var k :| 0 <= k < |s| && s[k] == FirstWithId(s, id).value && s[k].id == id &&
               forall j | 0 <= j < k :: s[j].id != id;
      assert r[k] == c;
      FirstWithIdAt(r, id, k);
    } else {
      FirstWithIdAppend(s, c, id);
    }
  }

  /** When the body carries another id than the path id, the path id can no longer be
      found afterwards, whether the update hit or appended. */
  lemma LookupAfterMismatchedPut(s: seq<Coffee>, id: string, c: Coffee)
    requires c.id != id
    ensures FirstWithId(Upserted(s, id, c), id) == None
  {
  }

  /** When the body carries the path id, the update-or-append keeps ids unique. */
  lemma PutKeepsUniqueIds(s: seq<Coffee>, id: string, c: Coffee)
    requires UniqueIds(s) && c.id == id
    ensures UniqueIds(Upserted(s, id, c))
  {
  }

  // ---------------------------------------------------------------------
  // Delete

  /** Removal distributes over concatenation, so the kept records stay in their
      original relative order. */
  lemma {:induction false} RemovedAppend(s: seq<Coffee>, t: seq<Coffee>, id: string)
    ensures Removed(s + t, id) == Removed(s, id) + Removed(t, id)
  {
    if s != [] {
      assert (s + t)[0] == s[0] && (s + t)[1..] == s[1..] + t;
      RemovedAppend(s[1..], t, id);
      if s[0].id == id {
        assert Removed(s + t, id) == Removed(s[1..] + t, id);
        assert Removed(s, id) == Removed(s[1..], id);
      } else {
        assert Removed(s + t, id) == [s[0]] + Removed(s[1..] + t, id);
        assert Removed(s, id) == [s[0]] + Removed(s[1..], id);
      }
    } else {
      assert s + t == t;
    }
  }

  /** Removing an id nobody has changes nothing. */
  lemma {:induction false} RemovedAbsent(s: seq<Coffee>, id: string)
    requires !HasId(s, id)
    ensures Removed(s, id) == s
  {
    if s != [] {
      assert s[0].id != id;
      assert !HasId(s[1..], id) by {
        forall j | 0 <= j < |s[1..]| ensures s[1..][j].id != id {
          assert s[1..][j] == s[j + 1];
        }
      }
      RemovedAbsent(s[1..], id);
    }
  }

  /** Deleting twice leaves the same list as deleting once. */
  lemma RemovedIdempotent(s: seq<Coffee>, id: string)
    ensures Removed(Removed(s, id), id) == Removed(s, id)
  {
  }

  /** After a delete, a lookup of the deleted id finds nothing. */
  lemma LookupAfterDelete(s: seq<Coffee>, id: string)
    ensures FirstWithId(Removed(s, id), id) == None
  {
  }

  /** A delete does not change the outcome of looking up any other id. */
  lemma {:induction false} LookupOtherAfterDelete(s: seq<Coffee>, id: string, other: string)
    requires other != id
    ensures FirstWithId(Removed(s, id), other) == FirstWithId(s, other)
  {
    if s != [] {
      LookupOtherAfterDelete(s[1..], id, other);
      if s[0].id != id {
        assert ([s[0]] + Removed(s[1..], id))[1..] == Removed(s[1..], id);
      }
    }
  }

  /** A delete keeps ids unique. */
  lemma {:induction false} DeleteKeepsUniqueIds(s: seq<Coffee>, id: string)
    requires UniqueIds(s)
    ensures UniqueIds(Removed(s, id))
  {
    if s != [] {
      assert UniqueIds(s[1..]) by {
        forall i, j | 0 <= i < j < |s[1..]| ensures s[1..][i].id != s[1..][j].id {
          assert s[1..][i] == s[i + 1] && s[1..][j] == s[j + 1];
        }
      }
      DeleteKeepsUniqueIds(s[1..], id);
      if s[0].id != id {
        var t := Removed(s[1..], id);
        forall j | 0 <= j < |t| ensures s[0].id != t[j].id {
          assert t[j] in s[1..];
          var m :| 0 <= m < |s[1..]| && s[1..][m] == t[j];
          assert s[m + 1] == t[j];
        }
        var r := [s[0]] + t;
        forall i, j | 0 <= i < j < |r| ensures r[i].id != r[j].id {
          if i == 0 {
            assert r[j] == t[j - 1];
          } else {
            assert r[i] == t[i - 1] && r[j] == t[j - 1];
          }
        }
      }
    }
  }
}

/**
 * `binary_search_by` on a vector of entries compared by name, as both symbol-table generators use
 * it: `Ok(i)` names an entry with the key, `Err(i)` is the position where the key would go. The
 * standard library's loop is not part of this model; the halving search below meets the contract
 * it documents, and for a vector out of order only that contract's unconditional half is claimed.
 */
module NameSearch {
  import opened Strings

  /** `Ok(index)` or `Err(index)`. */
  datatype Probe = Found(index: nat) | Vacant(index: nat)

  /** Names in non-decreasing order (equal neighbours allowed). */
  predicate Ascending(names: seq<string>) {
    forall i, j :: 0 <= i < j < |names| ==> !Less(names[j], names[i])
  }

  /** Names in strictly increasing order, so no two are equal. */
  predicate StrictlyAscending(names: seq<string>) {
    forall i, j :: 0 <= i < j < |names| ==> Less(names[i], names[j])
  }

  lemma StrictlyAscendingIsAscending(names: seq<string>)
    requires StrictlyAscending(names)
    ensures Ascending(names)
  {
    forall i, j | 0 <= i < j < |names|
      ensures !Less(names[j], names[i])
    {
      LessAsymmetric(names[i], names[j]);
    }
  }

  /** The search of the slots `lo..hi`. */
  function SearchIn(names: seq<string>, key: string, lo: nat, hi: nat): (r: Probe)
    requires lo <= hi <= |names|
    ensures r.Found? ==> lo <= r.index < hi && names[r.index] == key
    ensures r.Vacant? ==> lo <= r.index <= hi
    decreases hi - lo
  {
    if lo == hi then Vacant(lo)
    else
      var mid := lo + (hi - lo) / 2;
      if names[mid] == key then Found(mid)
      else if Less(names[mid], key) then SearchIn(names, key, mid + 1, hi)
      else SearchIn(names, key, lo, mid)
  }

  function Search(names: seq<string>, key: string): (r: Probe)
    ensures r.Found? ==> r.index < |names| && names[r.index] == key
    ensures r.Vacant? ==> r.index <= |names|
  {
    SearchIn(names, key, 0, |names|)
  }

  /** In an ascending vector everything up to a name below the key is below the key. */
  lemma BelowKey(names: seq<string>, key: string, mid: nat)
    requires Ascending(names) && mid < |names| && Less(names[mid], key)
    ensures forall j :: 0 <= j <= mid ==> Less(names[j], key)
  {
    forall j | 0 <= j < mid
      ensures Less(names[j], key)
    {
      LessTotal(names[j], names[mid]);
      if names[j] != names[mid] {
        LessTransitive(names[j], names[mid], key);
      }
    }
  }

  /** In an ascending vector everything from a name above the key on is above the key. */
  lemma AboveKey(names: seq<string>, key: string, mid: nat)
    requires Ascending(names) && mid < |names| && Less(key, names[mid])
    ensures forall j :: mid <= j < |names| ==> Less(key, names[j])
  {
    forall j | mid < j < |names|
      ensures Less(key, names[j])
    {
      LessTotal(names[mid], names[j]);
      if names[j] != names[mid] {
        LessTransitive(key, names[mid], names[j]);
      }
    }
  }

  /**
   * On an ascending vector `Err(p)` is exact: every name before `p` is below the key and every
   * name from `p` on is above it.
   */
  lemma {:induction false} SearchInVacant(names: seq<string>, key: string, lo: nat, hi: nat)
    requires lo <= hi <= |names| && Ascending(names)
    requires forall j :: 0 <= j < lo ==> Less(names[j], key)
    requires forall j :: hi <= j < |names| ==> Less(key, names[j])
    ensures SearchIn(names, key, lo, hi).Vacant? ==>
              var p := SearchIn(names, key, lo, hi).index;
              (forall j :: 0 <= j < p ==> Less(names[j], key)) && (forall j :: p <= j < |names| ==> Less(key, names[j]))
    decreases hi - lo
  {
    if lo < hi {
      var mid := lo + (hi - lo) / 2;
      if names[mid] != key {
        if Less(names[mid], key) {
          assert SearchIn(names, key, lo, hi) == SearchIn(names, key, mid + 1, hi);
          BelowKey(names, key, mid);
          SearchInVacant(names, key, mid + 1, hi);
        } else {
          assert SearchIn(names, key, lo, hi) == SearchIn(names, key, lo, mid);
          LessTotal(names[mid], key);
          AboveKey(names, key, mid);
          SearchInVacant(names, key, lo, mid);
        }
      }
    }
  }

  /**
   * On an ascending vector the search misses exactly the absent keys: `Err(p)` means the key is
   * not there and `p` is where it keeps the order.
   */
  lemma SearchVacant(names: seq<string>, key: string)
    requires Ascending(names)
    ensures Search(names, key).Vacant? ==>
              var p := Search(names, key).index;
              key !in names &&
              (forall j :: 0 <= j < p ==> Less(names[j], key)) && (forall j :: p <= j < |names| ==> Less(key, names[j]))
  {
    SearchInVacant(names, key, 0, |names|);
    if Search(names, key).Vacant? {
      forall j | 0 <= j < |names|
        ensures names[j] != key
      {
        LessIrreflexive(names[j]);
      }
    }
  }

  /** Putting the key at `Err(p)`'s position keeps a strictly ascending vector strictly ascending. */
  lemma InsertKeepsStrict(names: seq<string>, key: string)
    requires StrictlyAscending(names) && Search(names, key).Vacant?
    ensures var p := Search(names, key).index;
            StrictlyAscending(names[..p] + [key] + names[p..])
  {
    StrictlyAscendingIsAscending(names);
    SearchVacant(names, key);
    var p := Search(names, key).index;
    var s := names[..p] + [key] + names[p..];
    forall i, j | 0 <= i < j < |s|
      ensures Less(s[i], s[j])
    {
      if j < p {
        assert s[i] == names[i] && s[j] == names[j];
      } else if j == p {
        assert s[i] == names[i];
      } else if i == p {
        assert s[j] == names[j - 1];
      } else if i < p {
        assert s[i] == names[i] && s[j] == names[j - 1];
      } else {
        assert s[i] == names[i - 1] && s[j] == names[j - 1];
      }
    }
  }

  /** Putting the key at the position of either answer keeps an ascending vector ascending. */
  lemma InsertKeepsAscending(names: seq<string>, key: string)
    requires Ascending(names)
    ensures var p := Search(names, key).index;
            Ascending(names[..p] + [key] + names[p..])
  {
    SearchVacant(names, key);
    var r := Search(names, key);
    var p := r.index;
    var s := names[..p] + [key] + names[p..];
    forall i, j | 0 <= i < j < |s|
      ensures !Less(s[j], s[i])
    {
      if j < p {
        assert s[i] == names[i] && s[j] == names[j];
      } else if j == p {
        assert s[i] == names[i];
        if r.Found? {
          assert !Less(names[p], names[i]);
        } else {
          LessAsymmetric(names[i], key);
        }
      } else if i == p {
        assert s[j] == names[j - 1];
        if r.Found? {
          if j - 1 > p {
            assert !Less(names[j - 1], names[p]);
          } else {
            LessIrreflexive(key);
          }
        } else {
          LessAsymmetric(key, names[j - 1]);
        }
      } else if i < p {
        assert s[i] == names[i] && s[j] == names[j - 1];
      } else {
        assert s[i] == names[i - 1] && s[j] == names[j - 1];
      }
    }
  }
}

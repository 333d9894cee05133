/**
 * The SSA identifier allocator of one method analysis: a counter per storage
 * location (the key), starting at 0, handed out and raised by one on every
 * request.
 */
module SSAIdentifiers {
  import opened Wrappers

  /**
   * An SSA identity: the version handed out and the optional type-comparison
   * key (null when the factory has no comparison function).
   */
  datatype SSAIdent<T> = SSAIdent(val: nat, comparisonType: Option<T>)

  /** The counter of `k` in a lazily defaulted map: absent keys read as 0. */
  function CounterOf<K>(counters: map<K, nat>, k: K): nat {
    if k in counters then counters[k] else 0
  }

  /** The counters after one request for `k`. */
  function Advance<K(!new)>(counters: map<K, nat>, k: K): (next: map<K, nat>)
    ensures CounterOf(next, k) == CounterOf(counters, k) + 1
    ensures forall j :: j != k ==> CounterOf(next, j) == CounterOf(counters, j)
  {
    counters[k := CounterOf(counters, k) + 1]
  }

  /** The versions that `n` successive requests for `k` receive. */
  function Versions<K(!new)>(counters: map<K, nat>, k: K, n: nat): seq<nat>
    decreases n
  {
    if n == 0 then [] else [CounterOf(counters, k)] + Versions(Advance(counters, k), k, n - 1)
  }

  /** `n` successive requests for `k` receive consecutive versions from its current counter. */
  lemma {:induction false} VersionsConsecutive<K(!new)>(counters: map<K, nat>, k: K, n: nat)
    ensures |Versions(counters, k, n)| == n
    ensures forall i :: 0 <= i < n ==> Versions(counters, k, n)[i] == CounterOf(counters, k) + i
    decreases n
  {
    if n > 0 {
      VersionsConsecutive(Advance(counters, k), k, n - 1);
    }
  }

  /** For a key never requested before the versions are 0, 1, ..., n-1. */
  lemma FreshKeyVersions<K(!new)>(counters: map<K, nat>, k: K, n: nat)
    requires k !in counters
    ensures Versions(counters, k, n) == seq(n, i => i)
  {
    VersionsConsecutive(counters, k, n);
  }

  /** `n` requests for `k` raise its counter by `n` and leave every other counter alone. */
  lemma {:induction false} AdvanceTimesCounters<K(!new)>(counters: map<K, nat>, k: K, j: K, n: nat)
    requires j != k
    ensures CounterOf(AdvanceTimes(counters, k, n), j) == CounterOf(counters, j)
    ensures CounterOf(AdvanceTimes(counters, k, n), k) == CounterOf(counters, k) + n
    decreases n
  {
    if n > 0 {
      AdvanceTimesCounters(Advance(counters, k), k, j, n - 1);
    }
  }

  /** The counters after `n` requests for `k`. */
  function AdvanceTimes<K(!new)>(counters: map<K, nat>, k: K, n: nat): map<K, nat>
    decreases n
  {
    if n == 0 then counters else AdvanceTimes(Advance(counters, k), k, n - 1)
  }

  class SSAIdentifierFactory<K(==,!new), T> {
    /** `nextIdentFor`: the next version of each key requested so far. */
    var nextIdentFor: map<K, nat>
    const typeComparisonFunction: Option<K -> T>

    constructor (typeComparisonFunction: Option<K -> T>)
      ensures nextIdentFor == map[]
      ensures this.typeComparisonFunction == typeComparisonFunction
    {
      nextIdentFor := map[];
      this.typeComparisonFunction := typeComparisonFunction;
    }

    /** The version the next request for `k` receives. */
    function NextVersion(k: K): nat
      reads this
    {
      CounterOf(nextIdentFor, k)
    }

    /**
     * `getIdent(k)`: hands out the current counter of `k` (0 for a key never
     * seen) and raises that counter alone by one. The type key is the
     * comparison function applied to `k`, or null without one; it takes no
     * part in the version.
     */
    method GetIdent(k: K) returns (ident: SSAIdent<T>)
      modifies this
      ensures ident.val == old(NextVersion(k))
      ensures ident.comparisonType ==
        (match typeComparisonFunction
         case None => None
         case Some(f) => Some(f(k)))
      ensures nextIdentFor == Advance(old(nextIdentFor), k)
      ensures NextVersion(k) == ident.val + 1
      ensures forall j :: j != k ==> NextVersion(j) == old(NextVersion(j))
    {
      var val := CounterOf(nextIdentFor, k);
      nextIdentFor := nextIdentFor[k := val + 1];
      var key := match typeComparisonFunction
        case None => None
        case Some(f) => Some(f(k));
      ident := SSAIdent(val, key);
    }
  }

  /** A fresh factory hands one key 0, 1, 2 and, in between, another key 0: the versions received in request order. */
  method SuccessiveRequests<K(==,!new)>(k: K, j: K) returns (versions: seq<nat>)
    requires k != j
    ensures versions == [0, 1, 0, 2]
  {
    var factory := new SSAIdentifierFactory<K, int>(None);
    var a := factory.GetIdent(k);
    var b := factory.GetIdent(k);
    var c := factory.GetIdent(j);
    var d := factory.GetIdent(k);
    versions := [a.val, b.val, c.val, d.val];
  }
}

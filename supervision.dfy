/**
 * The cluster master of index.js: it keeps, per worker pid, the latest statistics that
 * worker reported, and on every timer tick adds up the hash counts of all workers that
 * have reported so far.
 */
module Supervision {
  import opened Mining

  /** A non-empty set has an element. */
  lemma HasElement(s: set<int>)
    requires s != {}
    ensures exists k :: k in s
  {
    if forall k :: k !in s {
      assert false;
    }
  }

  /** Some pid of a non-empty map; which one does not matter to the sum. */
  ghost function Pick(m: map<int, int>): (k: int)
    requires m != map[]
    ensures k in m
  {
    HasElement(m.Keys);
    var k :| k in m;
    k
  }

  /** The sum of all values of a map. */
  ghost function Total(m: map<int, int>): int
    decreases m.Keys
  {
    if m == map[] then 0
    else
      var k := Pick(m);
      m[k] + Total(m - {k})
  }

  /** Any entry can be taken out of the sum first, whatever order the keys are visited in. */
  lemma {:induction false} TotalRemove(m: map<int, int>, k: int)
    requires k in m
    ensures Total(m) == m[k] + Total(m - {k})
    decreases m.Keys
  {
    var k' := Pick(m);
    assert Total(m) == m[k'] + Total(m - {k'});
    if k' != k {
      assert (m - {k'}).Keys < m.Keys && (m - {k}).Keys < m.Keys;
      TotalRemove(m - {k'}, k);
      TotalRemove(m - {k}, k');
      assert m - {k'} - {k} == m - {k} - {k'};
    }
  }

  /** Overwriting one pid's entry changes the sum by exactly the difference, and adding a new pid by its value. */
  lemma TotalUpdate(m: map<int, int>, pid: int, v: int)
    ensures Total(m[pid := v]) == Total(m) - (if pid in m then m[pid] else 0) + v
  {
    TotalRemove(m[pid := v], pid);
    assert m[pid := v] - {pid} == m - {pid};
    if pid in m {
      TotalRemove(m, pid);
    } else {
      assert m - {pid} == m;
    }
  }

  /** The entries of m whose pids are in `pids`. */
  ghost function Restrict(m: map<int, int>, pids: set<int>): map<int, int> {
    map p | p in pids && p in m :: m[p]
  }

  class Supervisor {
    /** Latest `hashes` each worker reported, keyed by pid. */
    var hashes: map<int, int>
    /** Latest `accepted` each worker reported, keyed by pid. */
    var accepted: map<int, int>

    /** Both maps are written together, so they always cover the same pids. */
    ghost predicate Valid()
      reads this
    {
      hashes.Keys == accepted.Keys
    }

    constructor ()
      ensures Valid() && hashes == map[] && accepted == map[]
    {
      hashes, accepted := map[], map[];
    }

    /** The `message` handler: the reporting worker's entries are overwritten, all others kept. */
    method OnMessage(pid: int, msg: WorkerReport)
      requires Valid()
      modifies this
      ensures Valid()
      ensures hashes == old(hashes)[pid := msg.hashes]
      ensures accepted == old(accepted)[pid := msg.accepted]
      ensures Total(hashes) == Total(old(hashes)) - (if pid in old(hashes) then old(hashes)[pid] else 0) + msg.hashes
    {
      TotalUpdate(hashes, pid, msg.hashes);
      hashes := hashes[pid := msg.hashes];
      accepted := accepted[pid := msg.accepted];
    }

    /**
     * The interval callback: the total starts from 0 on every tick and adds the latest
     * count of each pid that has reported, so it depends on the current map only.
     */
    method Tick() returns (totalHashes: int)
      requires Valid()
      ensures totalHashes == Total(hashes)
      ensures hashes == map[] ==> totalHashes == 0
    {
      totalHashes := 0;
      var pending := hashes.Keys;
      assert Restrict(hashes, pending) == hashes;
      while pending != {}
        invariant pending <= hashes.Keys
        invariant totalHashes + Total(Restrict(hashes, pending)) == Total(hashes)
        decreases pending
      {
        HasElement(pending);
        var pid :| pid in pending;
        ghost var rest := Restrict(hashes, pending);
        TotalRemove(rest, pid);
        assert rest - {pid} == Restrict(hashes, pending - {pid});
        totalHashes := totalHashes + hashes[pid];
        pending := pending - {pid};
      }
      assert Restrict(hashes, pending) == map[];
    }
  }
}

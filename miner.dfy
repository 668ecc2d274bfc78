/**
 * The miner singleton of miner.js: the state a worker keeps about its pool session
 * (current job, worker id, counters, the guard that starts the search loop once) and
 * one iteration of the search loop of `work`.
 */
module Mining {
  import opened Wrappers
  import opened Hex
  import opened Target
  import opened CandidateBuffer

  /** A job as the pool sends it: an id, the input template and the raw target, both hex. */
  datatype Job = Job(jobId: string, blob: string, target: string)

  /** The `result` object of a pool reply: a login result carries `id` and `job`, a submit result `status`. */
  datatype Reply = Reply(id: Option<string>, job: Option<Job>, status: Option<string>)

  /** A pool message after JSON decoding (`command` is its `method` field); absent fields are `None`. */
  datatype Message = Message(result: Option<Reply>, command: Option<string>, params: Option<Job>, error: Option<string>)

  /** JavaScript truthiness of `data.result.id`: present and not the empty string. */
  predicate HasAuthId(r: Reply) {
    r.id.Some? && r.id.value != ""
  }

  /** A `submit` request written to the pool: worker id, job id, nonce hex, digest hex and the miner identity. */
  datatype Submission = Submission(workerId: Option<string>, jobId: string, nonce: string, result: string, minerId: string)

  /** The statistics a worker sends to its supervisor on every hit (the hash rate left out). */
  datatype WorkerReport = WorkerReport(hashes: nat, accepted: nat)

  /** The external hash primitive's 32-byte digest. */
  type Digest = d: seq<Byte> | |d| == 32 witness seq(32, _ => 0)

  /** Whether a job can be searched: both hex fields decode and the blob fits the 84-byte input. */
  predicate Searchable(job: Job) {
    IsHex(job.blob) && IsHex(job.target) && |HexDecode(job.blob)| <= InputSize
  }

  /**
   * The buffer work of one iteration before hashing: the blob is decoded and copied
   * into the input, the target decoded and widened, and the nonce written.
   */
  method PrepareCandidate(input: array<Byte>, job: Job, nonce: nat) returns (blobLength: nat, target: array<Byte>)
    requires Searchable(job) && input.Length == InputSize && nonce < NonceBound
    modifies input
    ensures blobLength == |HexDecode(job.blob)|
    ensures input[..] == Candidate(old(input[..]), HexDecode(job.blob), nonce)
    ensures target[..] == WidenTarget(HexDecode(job.target))
  {
    ghost var buffer := input[..];
    var blob := HexToBytes(job.blob);
    CopyBlob(input, blob);
    var targetBinary := HexToBytes(job.target);
    target := BuildTarget(targetBinary);
    WriteNonce(input, nonce);
    blobLength := blob.Length;
  }

  class Miner {
    /** `Miner.id`: a random session token fixed for the process. */
    const identity: string
    var job: Option<Job>
    var workerId: Option<string>
    var inProcess: bool
    var hashes: nat
    var sending: nat
    var accepted: nat
    /** The `submit` requests written to the pool socket, oldest first. */
    var submitted: seq<Submission>
    /** How many search loops `work` has started in this process. */
    ghost var loopsStarted: nat

    /** At most one search loop ever runs, and `sending` counts the submissions written. */
    ghost predicate Valid()
      reads this
    {
      && loopsStarted == (if inProcess then 1 else 0)
      && sending == |submitted|
    }

    constructor (identity: string)
      ensures Valid()
      ensures this.identity == identity
      ensures job == None && workerId == None && !inProcess
      ensures hashes == 0 && sending == 0 && accepted == 0 && submitted == []
    {
      this.identity := identity;
      job, workerId, inProcess := None, None, false;
      hashes, sending, accepted := 0, 0, 0;
      submitted := [];
      loopsStarted := 0;
    }

    /** `work`: marks the loop as running and starts it (the loop itself is `SearchStep`). */
    method Work()
      requires Valid() && !inProcess
      modifies this
      ensures Valid() && inProcess && loopsStarted == old(loopsStarted) + 1
      ensures job == old(job) && workerId == old(workerId)
      ensures hashes == old(hashes) && sending == old(sending) && accepted == old(accepted)
      ensures submitted == old(submitted)
    {
      inProcess := true;
      loopsStarted := loopsStarted + 1;
    }

    /** `setJob`: always replaces the job; starts the search loop only if none is running. */
    method SetJob(j: Job)
      requires Valid()
      modifies this
      ensures Valid() && job == Some(j) && inProcess
      ensures loopsStarted == if old(inProcess) then old(loopsStarted) else old(loopsStarted) + 1
      ensures loopsStarted == 1
      ensures workerId == old(workerId)
      ensures hashes == old(hashes) && sending == old(sending) && accepted == old(accepted)
      ensures submitted == old(submitted)
    {
      job := Some(j);
      if !inProcess {
        Work();
      }
    }

    /**
     * `parseCommand` on a decoded message: a result with an id logs in and installs its
     * job; any other result counts an acceptance when its status is "OK"; a message
     * without a result whose method is "job" installs its params; anything else,
     * an error included, changes nothing.
     */
    method ParseCommand(msg: Message)
      requires Valid()
      requires msg.result.Some? && HasAuthId(msg.result.value) ==> msg.result.value.job.Some?
      requires msg.result.None? && msg.command == Some("job") ==> msg.params.Some?
      modifies this
      ensures Valid()
      ensures msg.result.Some? && HasAuthId(msg.result.value) ==>
        && workerId == msg.result.value.id && job == msg.result.value.job
        && accepted == old(accepted) && inProcess
      ensures msg.result.Some? && !HasAuthId(msg.result.value) ==>
        && workerId == old(workerId) && job == old(job) && inProcess == old(inProcess)
        && accepted == old(accepted) + (if msg.result.value.status == Some("OK") then 1 else 0)
      ensures msg.result.None? && msg.command == Some("job") ==>
        && workerId == old(workerId) && job == msg.params
        && accepted == old(accepted) && inProcess
      ensures msg.result.None? && msg.command != Some("job") ==>
        && workerId == old(workerId) && job == old(job) && inProcess == old(inProcess)
        && accepted == old(accepted)
      ensures hashes == old(hashes) && sending == old(sending) && submitted == old(submitted)
    {
      if msg.result.Some? {
        var reply := msg.result.value;
        if HasAuthId(reply) {
          workerId := reply.id;
          SetJob(reply.job.value);
        } else if reply.status == Some("OK") {
          accepted := accepted + 1;
        }
      } else if msg.command == Some("job") {
        SetJob(msg.params.value);
      } else if msg.error.Some? {
        // The pool's error message is only logged.
      }
    }

    /** `send`: writes a `submit` request and counts it only when the socket is writable. */
    method Send(jobId: string, nonceHex: string, resultHex: string, writable: bool)
      requires Valid()
      modifies this
      ensures Valid()
      ensures writable ==>
        && submitted == old(submitted) + [Submission(workerId, jobId, nonceHex, resultHex, identity)]
        && sending == old(sending) + 1
      ensures !writable ==> submitted == old(submitted) && sending == old(sending)
      ensures job == old(job) && workerId == old(workerId) && inProcess == old(inProcess)
      ensures hashes == old(hashes) && accepted == old(accepted)
    {
      if writable {
        submitted := submitted + [Submission(workerId, jobId, nonceHex, resultHex, identity)];
        sending := sending + 1;
      }
    }

    /**
     * One iteration of the loop in `work`. `input` is the freshly allocated 84-byte
     * buffer (its bytes are whatever the allocator left), `nonce` the random draw, `hash`
     * the native primitive, applied to the first |blob| bytes of the input as
     * `_cryptonight_hash(input, output, blob.length)` is. On a hit the nonce and digest
     * are submitted, and the counters reported when running under a supervisor.
     */
    method SearchStep(input: array<Byte>, nonce: nat, hash: seq<Byte> -> Digest, writable: bool, supervised: bool)
      returns (found: bool, report: Option<WorkerReport>)
      requires Valid() && job.Some? && Searchable(job.value)
      requires input.Length == InputSize && nonce < NonceBound
      modifies this, input
      ensures Valid()
      ensures input[..] == Candidate(old(input[..]), HexDecode(old(job).value.blob), nonce)
      ensures found <==> Below(hash(input[..|HexDecode(old(job).value.blob)|]), WidenTarget(HexDecode(old(job).value.target)))
      ensures hashes == old(hashes) + 1
      ensures found && writable ==> submitted == old(submitted) + [Submission(
        workerId, old(job).value.jobId, HexEncode(NonceBytes(nonce)),
        HexEncode(hash(input[..|HexDecode(old(job).value.blob)|])), identity)]
      ensures !(found && writable) ==> submitted == old(submitted)
      ensures report == if found && supervised then Some(WorkerReport(hashes, accepted)) else None
      ensures job == old(job) && workerId == old(workerId) && inProcess == old(inProcess)
      ensures accepted == old(accepted)
    {
      var j := job.value;
      var blobLength, target := PrepareCandidate(input, j, nonce);
      CandidateShape(old(input[..]), HexDecode(j.blob), nonce);
      var digest := hash(input[..blobLength]);
      var output := new Byte[32](i requires 0 <= i < 32 => digest[i]);
      assert output[..] == digest;
      hashes := hashes + 1;
      found := MeetsTarget(output, target);
      report := None;
      if found {
        var nonceHex := BytesToHex(input[NonceOffset..NonceOffset + 4]);
        var resultHex := BytesToHex(output[..]);
        assert nonceHex == HexEncode(NonceBytes(nonce)) && resultHex == HexEncode(digest);
        if supervised {
          report := Some(WorkerReport(hashes, accepted));
        }
        Send(j.jobId, nonceHex, resultHex, writable);
      }
    }
  }

  /**
   * Each iteration re-reads `Miner.job`: if a job push were handled between two
   * iterations, the next candidate would be built from the new blob, and no second
   * loop would start. The source's loop is synchronous and never yields, so once it
   * runs no push is in fact handled; this states what the loop body would do.
   */
  method NextIterationSeesNewJob(m: Miner, j: Job, input: array<Byte>, nonce: nat, hash: seq<Byte> -> Digest)
    requires m.Valid() && m.inProcess && Searchable(j)
    requires input.Length == InputSize && nonce < NonceBound
    modifies m, input
    ensures m.job == Some(j) && m.loopsStarted == old(m.loopsStarted)
    ensures input[..] == Candidate(old(input[..]), HexDecode(j.blob), nonce)
  {
    m.ParseCommand(Message(None, Some("job"), Some(j), None));
    var found, report := m.SearchStep(input, nonce, hash, false, false);
  }
}

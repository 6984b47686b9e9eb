/** How `main` splits the mapped file among the workers: `n_threads` pieces
    of about `file_size / n_threads` bytes, each ending at a line end. */
module Partition {
  import opened Bytes
  import opened Scanner

  /** `ThreadParams`: the worker's id (a `u8`), the offsets of the first
      and of the last byte of its partition, and its count of claimed
      entries. */
  datatype ThreadParams = ThreadParams(tid: byte, start: nat, end: nat, entriesIndex: nat)

  /** The partitions follow each other without gap or overlap: the first
      starts at offset 0, each next one starts right after the end of the
      one before, and the last ends at `size`. Every partition but the
      last ends at or after its start. */
  ghost predicate Contiguous(ps: seq<ThreadParams>, size: nat)
  {
    && |ps| >= 1
    && ps[0].start == 0
    && (forall i :: 0 <= i < |ps| - 1 ==> ps[i].start <= ps[i].end && ps[i + 1].start == ps[i].end + 1)
    && ps[|ps| - 1].end == size
  }

  /** Entry `k` of `ps` is what `main` writes for worker `k` of `n`: its id
      is `k` as a `u8`, it has claimed no entry yet, it starts one past the
      end of worker `k - 1` (or at offset 0), and it ends at the file end if
      it is the last worker, otherwise at the first newline (or NUL) at or
      after `start + chunkSize`. */
  ghost predicate PlannedAt(ps: seq<ThreadParams>, k: nat, file: seq<byte>, chunkSize: nat, n: nat)
    requires k < |ps|
  {
    && ps[k].tid as int == k % 256
    && ps[k].entriesIndex == 0
    && ps[k].start == (if k == 0 then 0 else ps[k - 1].end + 1)
    && ps[k].end == (if k == n - 1 then |file| else Scan(file, ps[k].start + chunkSize, NEWLINE))
  }

  /** Every entry of `ps` is planned. */
  ghost predicate Planned(ps: seq<ThreadParams>, file: seq<byte>, chunkSize: nat, n: nat)
    decreases |ps|
  {
    |ps| == 0 || (Planned(ps[..|ps| - 1], file, chunkSize, n) && PlannedAt(ps, |ps| - 1, file, chunkSize, n))
  }

  /** What a planned table means, entry by entry. */
  lemma {:induction false} PlannedMeans(ps: seq<ThreadParams>, file: seq<byte>, chunkSize: nat, n: nat, k: nat)
    requires Planned(ps, file, chunkSize, n) && k < |ps|
    ensures PlannedAt(ps, k, file, chunkSize, n)
    decreases |ps|
  {
    if k < |ps| - 1 {
      var ps' := ps[..|ps| - 1];
      PlannedMeans(ps', file, chunkSize, n, k);
      assert ps'[k] == ps[k];
      assert k > 0 ==> ps'[k - 1] == ps[k - 1];
    }
  }

  /** Appending the entry `main` writes for the next worker keeps the
      table planned. */
  lemma PlanStep(ps: seq<ThreadParams>, p: ThreadParams, file: seq<byte>, chunkSize: nat, n: nat)
    requires Planned(ps, file, chunkSize, n)
    requires p.tid as int == |ps| % 256 && p.entriesIndex == 0
    requires p.start == if |ps| == 0 then 0 else ps[|ps| - 1].end + 1
    requires p.end == if |ps| == n - 1 then |file| else Scan(file, p.start + chunkSize, NEWLINE)
    ensures Planned(ps + [p], file, chunkSize, n)
  {
    assert (ps + [p])[..|ps|] == ps;
  }

  /** The partition loop of `main`: `chunk_size = file_size / n_threads`;
      worker `i` starts where the previous one stopped, plus one; its end
      is the file end for the last worker and otherwise the first newline
      (or NUL) at or after `start + chunk_size`. The `u8` id wraps. */
  method PlanPartitions(file: seq<byte>, nThreads: nat) returns (params: array<ThreadParams>)
    requires nThreads >= 1
    ensures fresh(params) && params.Length == nThreads
    ensures Planned(params[..], file, |file| / nThreads, nThreads)
  {
    var chunkSize: nat := |file| / nThreads;
    params := new ThreadParams[nThreads];
    var filePtr: nat := 0;
    for i := 0 to nThreads
      invariant Planned(params[..i], file, chunkSize, nThreads)
      invariant filePtr == if i == 0 then 0 else params[i - 1].end + 1
    {
      var end: nat;
      if i == nThreads - 1 {
        end := |file|;
      } else {
        end := NextCharacter(file, filePtr + chunkSize, NEWLINE);
      }
      ghost var before := params[..i];
      params[i] := ThreadParams((i % 256) as byte, filePtr, end, 0);
      assert params[..i + 1] == before + [params[i]];
      PlanStep(before, params[i], file, chunkSize, nThreads);
      filePtr := end + 1;
    }
    assert params[..] == params[..nThreads];
  }

  /** A planned table of `n` workers partitions the file: the pieces are
      contiguous, every piece but the last holds at least `chunkSize` bytes
      and ends at a newline or at the NUL past the end of the file. */
  lemma PlannedPartitions(ps: seq<ThreadParams>, file: seq<byte>, chunkSize: nat, n: nat)
    requires Planned(ps, file, chunkSize, n) && |ps| == n >= 1
    ensures Contiguous(ps, |file|)
    ensures forall i :: 0 <= i < n - 1 ==>
      ps[i].end >= ps[i].start + chunkSize && (At(file, ps[i].end) == NEWLINE || At(file, ps[i].end) == NUL)
  {
    PlannedMeans(ps, file, chunkSize, n, 0);
    PlannedMeans(ps, file, chunkSize, n, n - 1);
    forall i | 0 <= i < n - 1
      ensures ps[i].end >= ps[i].start + chunkSize && (At(file, ps[i].end) == NEWLINE || At(file, ps[i].end) == NUL)
      ensures ps[i + 1].start == ps[i].end + 1
    {
      PlannedMeans(ps, file, chunkSize, n, i);
      PlannedMeans(ps, file, chunkSize, n, i + 1);
    }
  }

  /** In contiguous partitions, every later partition starts after the end
      of an earlier one. */
  lemma {:induction false} StartsAfter(ps: seq<ThreadParams>, size: nat, i: nat, j: nat)
    requires Contiguous(ps, size) && i < j < |ps|
    ensures ps[j].start > ps[i].end
    decreases j - i
  {
    if j > i + 1 {
      StartsAfter(ps, size, i, j - 1);
    }
  }

  /** Contiguous partitions cover the file: every offset up to `size` lies
      in some partition. */
  lemma Covered(ps: seq<ThreadParams>, size: nat, p: nat)
    requires Contiguous(ps, size) && p <= size
    ensures exists i :: 0 <= i < |ps| && ps[i].start <= p <= ps[i].end
  {
    var i := 0;
    while ps[i].end < p
      invariant 0 <= i < |ps| && ps[i].start <= p
      decreases |ps| - i
    {
      i := i + 1;
    }
  }

  /** Contiguous partitions do not overlap: no offset lies in two of them. */
  lemma Disjoint(ps: seq<ThreadParams>, size: nat, i: nat, j: nat, p: nat)
    requires Contiguous(ps, size) && i < |ps| && j < |ps|
    requires ps[i].start <= p <= ps[i].end && ps[j].start <= p <= ps[j].end
    ensures i == j
  {
    if i < j {
      StartsAfter(ps, size, i, j);
    } else if j < i {
      StartsAfter(ps, size, j, i);
    }
  }
}

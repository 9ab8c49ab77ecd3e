/** Verified downloads: getVerified and the sidecar check of
internal/source/source.go, on top of the placing protocol. */
module Source {
  import opened GoText
  import AtomicFile

  datatype Checksum = ByIndex | BySidecar | Unchecked

  /** The backends that are read through a source. Only the transfer from gcs goes
  through a writer that hides what the destination is (internal/download/download.go:44). */
  datatype Transport = Gcs | Http | File

  const MaxSidecarSize: nat := 4096

  /** How a transfer arrives: in pieces, and then complete or broken off. */
  datatype Response = Response(chunks: seq<string>, broken: bool)

  /** A bytes.Buffer with a limit on Write, and on nothing else. */
  class LimitedBuffer {
    var buf: string
    const limit: nat

    constructor (limit: nat)
      ensures this.limit == limit && buf == ""
    {
      this.limit := limit;
      this.buf := "";
    }

    method Write(p: string) returns (ok: bool)
      modifies this
      ensures ok <==> |old(buf)| + |p| <= limit
      ensures buf == if ok then old(buf) + p else old(buf)
    {
      ok := |buf| + |p| <= limit;
      if ok {
        buf := buf + p;
      }
    }

    /** The method of the embedded bytes.Buffer: everything up to the end or the
    error of the reader, without a look at the limit. */
    method ReadFrom(r: Response) returns (ok: bool)
      modifies this
      ensures ok <==> !r.broken
      ensures buf == old(buf) + Concat(r.chunks)
    {
      var k := 0;
      ghost var all := buf + Concat(r.chunks);
      while k < |r.chunks|
        invariant 0 <= k <= |r.chunks|
        invariant buf + Concat(r.chunks[k..]) == all
      {
        assert r.chunks[k..][1..] == r.chunks[k + 1..];
        assert buf + (r.chunks[k] + Concat(r.chunks[k + 1..])) == buf + r.chunks[k] + Concat(r.chunks[k + 1..]);
        buf := buf + r.chunks[k];
        k := k + 1;
      }
      return !r.broken;
    }

    /** The copy in pieces: it stops at the first write that is refused. */
    method CopyPieces(r: Response) returns (ok: bool)
      requires |buf| <= limit
      modifies this
      ensures |buf| <= limit
      ensures ok <==> !r.broken && |old(buf)| + |Concat(r.chunks)| <= limit
      ensures ok ==> buf == old(buf) + Concat(r.chunks)
    {
      var k := 0;
      ghost var all := buf + Concat(r.chunks);
      while k < |r.chunks|
        invariant 0 <= k <= |r.chunks| && |buf| <= limit
        invariant buf + Concat(r.chunks[k..]) == all
      {
        assert r.chunks[k..][1..] == r.chunks[k + 1..];
        assert buf + (r.chunks[k] + Concat(r.chunks[k + 1..])) == buf + r.chunks[k] + Concat(r.chunks[k + 1..]);
        var written := Write(r.chunks[k]);
        if !written {
          return false;
        }
        k := k + 1;
      }
      return !r.broken;
    }

    /** io.Copy of a response into an empty buffer: a destination with a ReadFrom is
    asked to read by itself, unless a multi-writer stands before it. */
    method CopyFrom(t: Transport, r: Response) returns (ok: bool)
      requires buf == ""
      modifies this
      ensures ok <==> Received(t, limit, r)
      ensures ok ==> buf == Concat(r.chunks)
    {
      assert "" + Concat(r.chunks) == Concat(r.chunks);
      if t == Gcs {
        ok := CopyPieces(r);
      } else {
        ok := ReadFrom(r);
      }
    }
  }

  /** The response is complete, and over gcs no longer than the limit. */
  predicate Received(t: Transport, limit: nat, r: Response) {
    !r.broken && (t == Gcs ==> |Concat(r.chunks)| <= limit)
  }

  /** The digest a sidecar asks for: its first token, in lower case. */
  function Wanted(body: string): string {
    Until(ToLower(TrimSpace(body)), {' ', '\t'})
  }

  /** The sidecar is received and asks for digest. */
  predicate SidecarAsksFor(t: Transport, r: Response, digest: string) {
    Received(t, MaxSidecarSize, r) && digest == Wanted(Concat(r.chunks))
  }

  /** The check of the bytes in the temporary file; sha is the hex SHA-256. */
  method VerifySidecar(sha: string -> string, checksum: Checksum, t: Transport, sidecar: Response, content: string)
    returns (ok: bool)
    ensures ok <==> (checksum == BySidecar ==> SidecarAsksFor(t, sidecar, sha(content)))
  {
    if checksum != BySidecar {
      return true;
    }
    var body := new LimitedBuffer(MaxSidecarSize);
    var read := body.CopyFrom(t, sidecar);
    if !read {
      return false;
    }
    var want := ToLower(TrimSpace(body.buf));
    var end := IndexOf(want, ' ');
    var tab := IndexOf(want, '\t');
    var i := if end < tab then end else tab;
    UntilIsCut(want);
    if 0 < i < |want| {
      want := want[..i];
    }
    TrimSpaceHead(body.buf);
    return sha(content) == want;
  }

  lemma {:induction false} UntilIsCut(s: string)
    ensures var i, j := IndexOf(s, ' '), IndexOf(s, '\t');
      Until(s, {' ', '\t'}) == s[..if i < j then i else j]
  {
    if s != "" && s[0] != ' ' && s[0] != '\t' {
      UntilIsCut(s[1..]);
    }
  }

  /** A line of sha256sum asks for its digest, in any letter case: file is what
  follows the digest, a space or a tab, the mark of text or binary mode, and the
  name. A digest alone on its line is read as well. */
  lemma SidecarLineIsRead(digest: string, file: string)
    requires digest != "" && forall i :: 0 <= i < |digest| ==> Plain(digest[i])
    requires file == "" || ((file[0] == ' ' || file[0] == '\t') && Plain(file[|file| - 1]))
    ensures Wanted(digest + file + "\n") == ToLower(digest)
  {
    hide TrimSpace, ToLower, Until, Plain;
    TrimWritten(digest, file);
    UntilLowered(digest, file);
  }

  lemma TrimWritten(digest: string, file: string)
    requires digest != "" && Plain(digest[0]) && Plain(digest[|digest| - 1]) && (file == "" || Plain(file[|file| - 1]))
    ensures TrimSpace(digest + file + "\n") == digest + file
  {
    hide TrimSpace, Plain;
    var t := digest + file;
    assert t[0] == digest[0] && t[|t| - 1] == if file == "" then digest[|digest| - 1] else file[|file| - 1];
    TrimLine(t);
  }

  lemma UntilLowered(digest: string, file: string)
    requires file == "" || file[0] == ' ' || file[0] == '\t'
    requires forall i :: 0 <= i < |digest| ==> Plain(digest[i])
    ensures Until(ToLower(digest + file), {' ', '\t'}) == ToLower(digest)
  {
    hide Until, ToLower, Plain;
    LowerAppend(digest, file);
    LowerStaysPlain(digest);
    LowerSpace(file);
    UntilReads(ToLower(digest), ToLower(file), {' ', '\t'});
  }

  lemma LowerSpace(s: string)
    requires s == "" || s[0] == ' ' || s[0] == '\t'
    ensures if s == "" then ToLower(s) == "" else ToLower(s) != "" && ToLower(s)[0] == s[0]
  {
  }

  lemma LowerAppend(x: string, y: string)
    ensures ToLower(x + y) == ToLower(x) + ToLower(y)
  {
    hide ToLower, LowerChar;
    var xy, lowered := x + y, ToLower(x) + ToLower(y);
    assert |ToLower(xy)| == |lowered|;
    forall i | 0 <= i < |xy| ensures ToLower(xy)[i] == lowered[i] {
      assert xy[i] == if i < |x| then x[i] else y[i - |x|];
    }
  }

  lemma LowerStaysPlain(s: string)
    requires forall i :: 0 <= i < |s| ==> Plain(s[i])
    ensures forall c :: c in ToLower(s) ==> c !in {' ', '\t'}
  {
    forall i | 0 <= i < |s| ensures ToLower(s)[i] !in {' ', '\t'} {
      assert Plain(s[i]);
    }
  }

  // ----- the limit holds over gcs only -----

  lemma ConcatOne(s: string)
    ensures Concat([s]) == s
  {
    assert [s][1..] == [];
  }

  /** A sidecar of n characters and more that asks for a digest. */
  function PaddedSidecar(digest: string, n: nat): Response {
    Response([digest + (" " + Repeat('x', n + 1)) + "\n"], false)
  }

  /** Over http and file a sidecar of any length is received, and asks for its
  digest like a short one. */
  lemma LongSidecarIsAccepted(t: Transport, digest: string, n: nat)
    requires t != Gcs
    requires digest != "" && forall i :: 0 <= i < |digest| ==> Plain(digest[i])
    ensures |Concat(PaddedSidecar(digest, n).chunks)| > n
    ensures SidecarAsksFor(t, PaddedSidecar(digest, n), ToLower(digest))
  {
    hide Wanted, ToLower, Plain;
    var file := " " + Repeat('x', n + 1);
    ConcatOne(digest + file + "\n");
    assert Plain(file[|file| - 1]) by {
      PlainX();
    }
    SidecarLineIsRead(digest, file);
  }

  lemma PlainX()
    ensures Plain('x')
  {
  }

  /** For every digest: sidecars that ask for it are bounded by the limit exactly
  when the transport is gcs. */
  lemma LimitHoldsExactly(t: Transport, digest: string)
    requires digest != "" && ToLower(digest) == digest && forall i :: 0 <= i < |digest| ==> Plain(digest[i])
    ensures (forall r :: SidecarAsksFor(t, r, digest) ==> |Concat(r.chunks)| <= 4096) <==> t == Gcs
  {
    hide Wanted, ToLower, Plain, Concat;
    if t != Gcs {
      LongSidecarIsAccepted(t, digest, MaxSidecarSize);
      assert SidecarAsksFor(t, PaddedSidecar(digest, MaxSidecarSize), digest);
    }
  }

  /** Over gcs, of the complete sidecars that ask for a digest those of up to 4096 bytes
  are accepted and the longer ones refused. */
  lemma GcsLimitIsExact(r: Response)
    requires !r.broken
    ensures SidecarAsksFor(Gcs, r, Wanted(Concat(r.chunks))) <==> |Concat(r.chunks)| <= 4096
  {
  }

  // ----- getVerified -----

  /** One call of getVerified: the transport, the object, whether its transfer
  completes, the sidecar, and whether the run is cancelled when the content has
  been checked. */
  datatype Job = Job(transport: Transport, object_: string, complete: bool, checksum: Checksum, sidecar: Response,
                     cancelled: bool)

  /** The verdict of the fill function of a job on the temporary file. */
  predicate FillAccepts(sha: string -> string, job: Job, content: string) {
    && job.complete && content == job.object_
    && (job.checksum == BySidecar ==> SidecarAsksFor(job.transport, job.sidecar, sha(content)))
    && !job.cancelled
  }

  /** The fill function, after the transfer has written content. */
  method Fill(sha: string -> string, job: Job, content: string) returns (ok: bool)
    requires job.complete ==> content == job.object_
    ensures ok <==> FillAccepts(sha, job, content)
  {
    if !job.complete {
      return false;
    }
    var verified := VerifySidecar(sha, job.checksum, job.transport, job.sidecar, content);
    return verified && !job.cancelled;
  }

  function Verdicts(sha: string -> string, jobs: seq<Job>): (nat, string) -> bool {
    (w: nat, content: string) => w < |jobs| && FillAccepts(sha, jobs[w], content)
  }

  /** The transfer of the job was complete and it was not cancelled. In sidecar mode
  its object has the digest that its sidecar asks for, and over gcs the sidecar has at
  most 4096 bytes. */
  ghost predicate Verified(sha: string -> string, job: Job) {
    && job.complete && !job.cancelled
    && (job.checksum == BySidecar ==>
         && !job.sidecar.broken && sha(job.object_) == Wanted(Concat(job.sidecar.chunks))
         && (job.transport == Gcs ==> |Concat(job.sidecar.chunks)| <= 4096))
  }

  /** The fill function accepts nothing but the object of a verified job. */
  lemma AcceptedIsVerified(sha: string -> string, job: Job, content: string)
    ensures FillAccepts(sha, job, content) <==> Verified(sha, job) && content == job.object_
  {
  }

  /** Over every run of any number of getVerified calls for one path: what is at
  the path is the initial file or the whole object of a job that was not
  cancelled and, in sidecar mode, hashes to what its sidecar asks for; a job
  that returned nil was not cancelled. */
  lemma OnlyVerifiedContentIsPlaced(sha: string -> string, jobs: seq<Job>, initial: Option<string>, m: nat,
                                    actions: seq<AtomicFile.Action>)
    requires AtomicFile.Run(Verdicts(sha, jobs), AtomicFile.Init(initial, |jobs|, m), actions).Some?
    ensures var s := AtomicFile.Run(Verdicts(sha, jobs), AtomicFile.Init(initial, |jobs|, m), actions).value;
      && (forall k :: 0 <= k < |s.placed| ==>
            s.placed[k].writer < |jobs| && s.placed[k].content == jobs[s.placed[k].writer].object_
            && Verified(sha, jobs[s.placed[k].writer]))
      && (AtomicFile.DstContent(s) == initial
          || exists w :: 0 <= w < |jobs| && Verified(sha, jobs[w]) && AtomicFile.DstContent(s) == Some(jobs[w].object_))
      && |s.writers| == |jobs|
      && (forall w :: 0 <= w < |jobs| && s.writers[w].pc == AtomicFile.Done ==> Verified(sha, jobs[w]))
  {
    hide AtomicFile.Run, FillAccepts, Verified;
    AtomicFile.WriteIsAtomic(Verdicts(sha, jobs), initial, |jobs|, m, actions);
    var s := AtomicFile.Run(Verdicts(sha, jobs), AtomicFile.Init(initial, |jobs|, m), actions).value;
    forall k | 0 <= k < |s.placed| ensures PlacedJob(sha, jobs, s.placed[k]) {
      AcceptedJob(sha, jobs, s.placed[k]);
    }
    if s.placed != [] {
      var last := s.placed[|s.placed| - 1];
      assert PlacedJob(sha, jobs, last);
      assert Verified(sha, jobs[last.writer]);
    }
    forall w | 0 <= w < |jobs| && s.writers[w].pc == AtomicFile.Done
      ensures Verified(sha, jobs[w])
    {
      assert AtomicFile.ResultOk(s, w);
      var k :| 0 <= k < |s.placed| && s.placed[k].writer == w;
      assert PlacedJob(sha, jobs, s.placed[k]);
    }
  }

  /** The placement is the object of a verified job. */
  ghost predicate PlacedJob(sha: string -> string, jobs: seq<Job>, p: AtomicFile.Placement) {
    p.writer < |jobs| && p.content == jobs[p.writer].object_ && Verified(sha, jobs[p.writer])
  }

  lemma AcceptedJob(sha: string -> string, jobs: seq<Job>, p: AtomicFile.Placement)
    requires Verdicts(sha, jobs)(p.writer, p.content)
    ensures PlacedJob(sha, jobs, p)
  {
    AcceptedIsVerified(sha, jobs[p.writer], p.content);
  }
}

/** Copying a modem image out of its partition, under short reads and short writes. */
module ImageRestore {
  import opened Common

  const W_BUF_SIZE := 1024 * 4
  const MAX_IMG_SIZE := 512 * 1024 * 1024

  /** How a restore ended. */
  datatype Outcome =
    | NotFound | BadSize | CreateFailed | OpenFailed
    | Complete                 // everything was copied
    | EndOfInput               // a read returned nothing
    | ReadFailed(code: int)    // a seek or read failed
    | WriteFailed(code: int)   // a write failed or wrote nothing

  // ---------------------------------------------------------------- reads and writes

  /** What the system is ready to return for the k-th read and the k-th write: a number of bytes, or an error. */
  datatype Answers = Answers(ofReads: nat -> int, ofWrites: nat -> int)

  /** A read returns what its answer says, but no more than was asked for and than there is. */
  function ReadResult(answer: int, len: nat, left: nat): (r: int)
    ensures r <= len && (r > 0 ==> r <= left)
    ensures answer <= 0 ==> r == answer
    ensures r <= answer && (r == answer || r == len || r == left)
  {
    if answer <= 0 then answer else if answer <= len && answer <= left then answer else if len <= left then len else left
  }

  /** So does a write. */
  function WriteResult(answer: int, len: nat): (w: int)
    ensures w <= len && w <= answer && (w == answer || w == len)
  {
    if answer <= len then answer else len
  }

  function Left(disk: seq<byte>, pos: nat): nat {
    if pos < |disk| then |disk| - pos else 0
  }

  /** The two open descriptors. */
  class Descriptors {
    const disk: seq<byte>
    const answers: Answers
    var file: seq<byte>
    var readsMade: nat
    var writesMade: nat

    constructor (disk: seq<byte>, answers: Answers)
      ensures this.disk == disk && this.answers == answers && file == [] && readsMade == writesMade == 0
    {
      this.disk, this.answers := disk, answers;
      file, readsMade, writesMade := [], 0, 0;
    }

    /** A positioned read. */
    method ReadAt(pos: nat, len: nat) returns (r: int, data: seq<byte>)
      modifies this`readsMade
      ensures readsMade == old(readsMade) + 1
      ensures r == ReadResult(answers.ofReads(old(readsMade)), len, Left(disk, pos))
      ensures data == if r > 0 then disk[pos..pos + r] else []
    {
      r := ReadResult(answers.ofReads(readsMade), len, Left(disk, pos));
      readsMade := readsMade + 1;
      data := if r > 0 then disk[pos..pos + r] else [];
    }

    /** An append to the file. */
    method Write(data: seq<byte>) returns (w: int)
      modifies this`file, this`writesMade
      ensures writesMade == old(writesMade) + 1
      ensures w == WriteResult(answers.ofWrites(old(writesMade)), |data|)
      ensures file == old(file) + data[..if w > 0 then w else 0]
    {
      w := WriteResult(answers.ofWrites(writesMade), |data|);
      writesMade := writesMade + 1;
      file := file + data[..if w > 0 then w else 0];
    }
  }

  // ---------------------------------------------------------------- what the answers make of a restore

  /** An image to be copied from a disk, and what its reads and writes will return. */
  datatype Job = Job(disk: seq<byte>, offset: nat, size: nat, answers: Answers)

  /** What the k-th read returns when n bytes are restored: up to 4096 of the bytes that are missing are asked for. */
  function ReadAfter(job: Job, k: nat, n: nat): int
    requires n <= job.size
  {
    ReadResult(job.answers.ofReads(k), if job.size - n > 4096 then 4096 else job.size - n, Left(job.disk, job.offset + n))
  }

  /** The k-th read and write take the count of restored bytes from n to n'. */
  ghost predicate Copies(job: Job, k: nat, n: nat, n': nat) {
    && n < job.size
    && var r := ReadAfter(job, k, n);
       r > 0 && WriteResult(job.answers.ofWrites(k), r) > 0 && n' == n + WriteResult(job.answers.ofWrites(k), r)
  }

  /** counts[k] bytes are restored before the k-th read: each of the reads and writes so far copied something. */
  ghost predicate Progress(job: Job, counts: seq<nat>) {
    && counts != [] && counts[0] == 0
    && forall k: nat :: k + 1 < |counts| ==> Copies(job, k, counts[k], counts[k + 1])
  }

  /** With n bytes restored a restore ends so at the k-th read or write. */
  ghost predicate EndsAt(job: Job, k: nat, n: nat, outcome: Outcome) {
    match outcome
    case Complete => n == job.size
    case EndOfInput => n < job.size && ReadAfter(job, k, n) == 0
    case ReadFailed(code) => n < job.size && ReadAfter(job, k, n) == code < 0
    case WriteFailed(code) => n < job.size && ReadAfter(job, k, n) > 0
                              && WriteResult(job.answers.ofWrites(k), ReadAfter(job, k, n)) == code <= 0
    case _ => false
  }

  /** The bytes copied are those at the front of the image. */
  ghost predicate Front(job: Job, copied: seq<byte>) {
    |copied| <= job.size
    && (copied != [] ==> job.offset + |copied| <= |job.disk| && copied == job.disk[job.offset..job.offset + |copied|])
  }

  /** While the answers are positive, a restore of an image that lies on the disk only ends when all is copied. */
  lemma PositiveAnswersComplete(job: Job, k: nat, n: nat, outcome: Outcome)
    requires EndsAt(job, k, n, outcome)
    ensures job.offset + job.size <= |job.disk| && job.answers.ofReads(k) > 0 && job.answers.ofWrites(k) > 0 ==>
              outcome == Complete
  {
  }

  /** The answers leave no choice: how far a restore comes and how it ends follows from them. */
  lemma AnswersDecide(job: Job, counts: seq<nat>, outcome: Outcome, counts': seq<nat>, outcome': Outcome)
    requires Progress(job, counts) && EndsAt(job, |counts| - 1, counts[|counts| - 1], outcome)
    requires Progress(job, counts') && EndsAt(job, |counts'| - 1, counts'[|counts'| - 1], outcome')
    ensures counts == counts' && outcome == outcome'
  {
    if |counts| <= |counts'| {
      NoEarlierEnd(job, counts, outcome, counts');
    } else {
      NoEarlierEnd(job, counts', outcome', counts);
    }
  }

  lemma NoEarlierEnd(job: Job, counts: seq<nat>, outcome: Outcome, counts': seq<nat>)
    requires Progress(job, counts) && EndsAt(job, |counts| - 1, counts[|counts| - 1], outcome)
    requires Progress(job, counts') && |counts| <= |counts'|
    ensures counts == counts'
  {
    var k: nat := |counts| - 1;
    SameCounts(job, counts, counts', k + 1);
    assert counts[..k + 1][k] == counts'[..k + 1][k];
    if k + 1 < |counts'| {
      EndsOrCopies(job, k, counts'[k], counts'[k + 1], outcome);
      assert false;
    }
    assert counts[..k + 1] == counts && counts'[..k + 1] == counts';
  }

  lemma EndsOrCopies(job: Job, k: nat, n: nat, n': nat, outcome: Outcome)
    ensures !(EndsAt(job, k, n, outcome) && Copies(job, k, n, n'))
  {
  }

  lemma {:induction false} SameCounts(job: Job, counts: seq<nat>, counts': seq<nat>, n: nat)
    requires Progress(job, counts) && Progress(job, counts')
    requires n <= |counts| && n <= |counts'|
    ensures counts[..n] == counts'[..n]
  {
    if n > 1 {
      SameCounts(job, counts, counts', n - 1);
      var k: nat := n - 2;
      assert counts[..n - 1][k] == counts'[..n - 1][k];
      assert Copies(job, k, counts[k], counts[k + 1]) && Copies(job, k, counts'[k], counts'[k + 1]);
    }
  }

  /** Behind the bytes copied come the bytes written. */
  lemma FrontGrows(job: Job, copied: seq<byte>, buff: seq<byte>, n: nat)
    requires Front(job, copied) && 0 < n <= |buff| && |copied| + |buff| <= job.size
    requires job.offset + |copied| + |buff| <= |job.disk|
    requires buff == job.disk[job.offset + |copied|..job.offset + |copied| + |buff|]
    ensures Front(job, copied + buff[..n])
  {
  }

  // ---------------------------------------------------------------- the restore

  /** One turn of the copy loop. */
  method CopyBlock(ghost job: Job, fds: Descriptors, offset: nat, imgSize: nat, wCount: nat)
    returns (outcome: Option<Outcome>, wCount': nat)
    requires fds.disk == job.disk && fds.answers == job.answers && offset == job.offset && imgSize == job.size
    requires Front(job, fds.file) && |fds.file| == wCount < imgSize && fds.readsMade == fds.writesMade
    modifies fds
    ensures Front(job, fds.file) && |fds.file| == wCount'
    ensures outcome.None? ==> Copies(job, old(fds.readsMade), wCount, wCount')
                              && fds.readsMade == fds.writesMade == old(fds.readsMade) + 1
    ensures outcome.Some? ==> wCount' == wCount && EndsAt(job, old(fds.readsMade), wCount, outcome.value)
  {
    hide Left, Front;
    wCount', outcome := wCount, None;
    ghost var copied := fds.file;
    var rLen := if imgSize - wCount > W_BUF_SIZE then W_BUF_SIZE else imgSize - wCount;
    var rrLen, buff := fds.ReadAt(offset + wCount, rLen);
    if rrLen > 0 {
      LeftOf(fds.disk, offset + wCount, rrLen);
      var wLen := fds.Write(buff);
      if wLen > 0 {
        FrontGrows(job, copied, buff, wLen);
        wCount' := wCount + wLen;
      } else {
        outcome := Some(WriteFailed(wLen));
        assert fds.file == copied;
      }
    } else if rrLen == 0 {
      outcome := Some(EndOfInput);
    } else {
      outcome := Some(ReadFailed(rrLen));
    }
  }

  lemma LeftOf(disk: seq<byte>, pos: nat, n: nat)
    requires 0 < n <= Left(disk, pos)
    ensures pos + n <= |disk|
  {
  }

  lemma MoreCopied(job: Job, counts: seq<nat>, n: nat)
    requires Progress(job, counts) && Copies(job, |counts| - 1, counts[|counts| - 1], n)
    ensures Progress(job, counts + [n])
  {
  }

  /** Restores the image found at `offset`: at every point, and so at the end whatever went wrong, the file is
      exactly a prefix of the image.  How far the copy comes and how it ends is what its reads and writes
      return; a positive result is the number of bytes restored. */
  method RestoreImage(disk: seq<byte>, whichMd: int, offset: nat, imgSize: int, created: bool, readable: bool, answers: Answers)
    returns (ret: int, file: seq<byte>, outcome: Outcome, ghost counts: seq<nat>)
    ensures outcome.NotFound? <==> whichMd < 0
    ensures outcome.BadSize? <==> whichMd >= 0 && !(0 <= imgSize <= MAX_IMG_SIZE)
    ensures outcome.CreateFailed? <==> whichMd >= 0 && 0 <= imgSize <= MAX_IMG_SIZE && !created
    ensures outcome.OpenFailed? <==> whichMd >= 0 && 0 <= imgSize <= MAX_IMG_SIZE && created && !readable
    ensures if whichMd >= 0 && 0 <= imgSize <= MAX_IMG_SIZE && created && readable
            then var job := Job(disk, offset, imgSize, answers);
                 && Progress(job, counts) && |file| == counts[|counts| - 1] && Front(job, file)
                 && EndsAt(job, |counts| - 1, |file|, outcome)
            else file == []
    ensures ret == match outcome
                   case NotFound => -1
                   case BadSize => -1
                   case CreateFailed => -2
                   case OpenFailed => -2
                   case Complete => imgSize
                   case EndOfInput => |file|
                   case ReadFailed(code) => code
                   case WriteFailed(code) => code
    ensures ret > 0 ==> ret == |file|
    ensures whichMd >= 0 && 0 <= imgSize <= MAX_IMG_SIZE && created && readable && offset + imgSize <= |disk|
            && (forall k: nat :: k < |counts| ==> answers.ofReads(k) > 0 && answers.ofWrites(k) > 0) ==>
              outcome == Complete && file == disk[offset..offset + imgSize]
  {
    file, counts := [], [0];
    if whichMd < 0 {
      return -1, file, NotFound, counts;
    }
    if imgSize > MAX_IMG_SIZE || imgSize < 0 {
      return -1, file, BadSize, counts;
    }
    if !created {
      return -2, file, CreateFailed, counts;
    }
    if !readable {
      return -2, file, OpenFailed, counts;
    }
    ghost var job := Job(disk, offset, imgSize, answers);
    var fds := new Descriptors(disk, answers);
    assert Front(job, fds.file) && Progress(job, counts);
    hide Front, Progress, Copies;
    ret, outcome := 0, Complete;
    var wCount := 0;
    while wCount < imgSize
      invariant |fds.file| == wCount == ret <= imgSize && Front(job, fds.file)
      invariant Progress(job, counts) && counts != [] && counts[|counts| - 1] == wCount
      invariant fds.readsMade == fds.writesMade == |counts| - 1
      decreases imgSize - wCount
    {
      var end, copied := CopyBlock(job, fds, offset, imgSize, wCount);
      if end.Some? {
        PositiveAnswersComplete(job, |counts| - 1, wCount, end.value);
        ret := match end.value case ReadFailed(code) => code case WriteFailed(code) => code case _ => ret;
        return ret, fds.file, end.value, counts;
      }
      MoreCopied(job, counts, copied);
      CopiedMore(job, |counts| - 1, wCount, copied);
      counts := counts + [copied];
      wCount := copied;
      ret := wCount;
    }
    file := fds.file;
    WholeImage(job, file);
  }

  lemma WholeImage(job: Job, file: seq<byte>)
    requires Front(job, file) && |file| == job.size
    ensures job.offset + job.size <= |job.disk| ==> file == job.disk[job.offset..job.offset + job.size]
  {
  }

  lemma CopiedMore(job: Job, k: nat, n: nat, n': nat)
    requires Copies(job, k, n, n')
    ensures n < n' <= job.size
  {
  }
}

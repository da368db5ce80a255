/**
 `readFile`: the retry loop around `GetInfo`, the ownership of its pool buffer, the size limit
 and the read itself, against firmware that may give any answer.
 */
module FileReading {
  import opened MemEssentials
  import opened Firmware
  import opened ElfLoading

  datatype Status = Success | BufferTooSmall | VolumeCorrupted | NoMedia | OtherError

  datatype KernelLoadError = KernelNotFound | KernelVolumeCorrupted | UnknownError

  function ErrorFor(status: Status): KernelLoadError {
    match status
    case VolumeCorrupted => KernelVolumeCorrupted
    case NoMedia => KernelNotFound
    case _ => UnknownError
  }

  predicate NextGranted(answers: seq<bool>) {
    answers != [] && answers[0]
  }

  /** The state of the pool that the discipline is about. */
  datatype Book = Book(live: map<nat, nat>, frees: nat, uses: nat)

  /** Pool memory.  Buffers are named by handles that are never issued twice; the ledger counts
      frees of buffers that are not live, and uses of buffers that are not live or not of the
      reported size. */
  class Pool {
    var answers: seq<bool>
    var live: map<nat, nat>
    var next: nat
    var badFrees: nat
    var badUses: nat

    ghost predicate Valid()
      reads this
    {
      forall b :: b in live ==> b < next
    }

    function Now(): Book
      reads this
    {
      Book(live, badFrees, badUses)
    }

    constructor (answers: seq<bool>)
      ensures Valid() && this.answers == answers && live == map[]
      ensures badFrees == 0 && badUses == 0
    {
      this.answers := answers;
      live := map[];
      next, badFrees, badUses := 0, 0, 0;
    }

    /** A refused call leaves the caller's pointer as it was. */
    method AllocatePool(size: nat, current: nat) returns (ok: bool, buffer: nat)
      requires Valid()
      modifies this
      ensures Valid() && badFrees == old(badFrees) && badUses == old(badUses)
      ensures ok == NextGranted(old(answers)) && answers == Later(old(answers))
      ensures if ok then buffer !in old(live) && live == old(live)[buffer := size]
              else buffer == current && live == old(live)
    {
      ok := answers != [] && answers[0];
      answers := Later(answers);
      if ok {
        buffer := next;
        live := live[buffer := size];
        next := next + 1;
      } else {
        buffer := current;
      }
    }

    method FreePool(buffer: nat)
      requires Valid()
      modifies this
      ensures Valid() && live == old(live) - {buffer} && answers == old(answers)
      ensures badUses == old(badUses)
      ensures badFrees == if buffer in old(live) then old(badFrees) else old(badFrees) + 1
    {
      if buffer in live {
        live := live - {buffer};
      } else {
        badFrees := badFrees + 1;
      }
    }

    /** The firmware is handed a buffer and its size. */
    method Use(buffer: nat, size: nat)
      requires Valid()
      modifies this
      ensures Valid() && live == old(live) && answers == old(answers)
      ensures badFrees == old(badFrees)
      ensures badUses == if buffer in live && live[buffer] == size then old(badUses) else old(badUses) + 1
    {
      if !(buffer in live && live[buffer] == size) {
        badUses := badUses + 1;
      }
    }
  }

  datatype InfoAnswer = InfoAnswer(status: Status, bufferSize: nat, fileSize: nat)

  function NextInfo(answers: seq<InfoAnswer>): InfoAnswer {
    if answers == [] then InfoAnswer(OtherError, 0, 0) else answers[0]
  }

  datatype ReadAnswer = ReadAnswer(status: Status, count: nat)

  function BytesRead(a: ReadAnswer, wanted: nat, available: nat): nat {
    var n := if a.count < wanted then a.count else wanted;
    if n < available then n else available
  }

  lemma ReadFills(m: seq<Byte>, m': seq<Byte>, r: Region, disk: seq<Byte>, n: nat)
    requires |m'| == |m| && r.End() <= |m| && n <= |disk| && n <= r.pages * PAGE_SIZE
    requires forall i :: r.start <= i < r.start + n ==> m'[i] == disk[i - r.start]
    requires forall i :: 0 <= i < |m| && !(r.start <= i < r.start + n) ==> m'[i] == m[i]
    ensures OnlyInside(m, m', r) && Holds(m', Image(r, disk[..n]))
  {
  }

  /** An open file whose answers are arbitrary; `asked` records the buffer sizes of the queries. */
  class FileHandle {
    var infoAnswers: seq<InfoAnswer>
    var asked: seq<nat>
    const readAnswer: ReadAnswer
    const disk: seq<Byte>

    constructor (infoAnswers: seq<InfoAnswer>, readAnswer: ReadAnswer, disk: seq<Byte>)
      ensures this.infoAnswers == infoAnswers && this.asked == []
      ensures this.disk == disk && this.readAnswer == readAnswer
    {
      this.infoAnswers := infoAnswers;
      this.asked := [];
      this.readAnswer := readAnswer;
      this.disk := disk;
    }

    method GetInfo(pool: Pool, bufferSize: nat, buffer: nat) returns (answer: InfoAnswer)
      requires pool.Valid()
      modifies this, pool
      ensures pool.Valid() && asked == old(asked) + [bufferSize]
      ensures answer == NextInfo(old(infoAnswers)) && infoAnswers == Later(old(infoAnswers))
      ensures pool.live == old(pool.live) && pool.answers == old(pool.answers)
      ensures pool.badFrees == old(pool.badFrees)
      ensures pool.badUses == if buffer in pool.live && pool.live[buffer] == bufferSize
                              then old(pool.badUses) else old(pool.badUses) + 1
    {
      pool.Use(buffer, bufferSize);
      asked := asked + [bufferSize];
      answer := NextInfo(infoAnswers);
      infoAnswers := Later(infoAnswers);
    }

    /** At most the wanted number of bytes arrives at `buffer`, the start of the given pages, from
        the start of the file. */
    method Read(ram: array<Byte>, wanted: nat, buffer: nat, ghost pages: Region) returns (status: Status, count: nat)
      requires buffer == pages.start && pages.End() <= ram.Length && wanted <= pages.pages * PAGE_SIZE
      modifies ram
      ensures count == BytesRead(readAnswer, wanted, |disk|) && count <= wanted && count <= |disk|
      ensures OnlyInside(old(ram[..]), ram[..], pages) && Holds(ram[..], Image(pages, disk[..count]))
      ensures status == readAnswer.status
    {
      status := readAnswer.status;
      var limit := BytesRead(readAnswer, wanted, |disk|);
      count := 0;
      while count < limit
        invariant count <= limit
        invariant forall i :: buffer <= i < buffer + count ==> ram[i] == disk[i - buffer]
        invariant forall i :: 0 <= i < ram.Length && !(buffer <= i < buffer + count) ==> ram[i] == old(ram[i])
      {
        ram[buffer + count] := disk[count];
        count := count + 1;
      }
      ReadFills(old(ram[..]), ram[..], pages, disk, count);
    }
  }

  /** The exits of `readFile`; `InfoFound` only leads from the retry loop to the rest.  `NoPages` is
      the ignored failure of `AllocatePages`, after which the source reads to an address it never
      got. */
  datatype Exit =
    | NoInfoBuffer
    | InfoFailed
    | TooManyRetries
    | InfoFound
    | SizeRejected
    | NoPages
    | ReadFailed
    | FileRead(buffer: nat, size: nat)

  const DEFAULT_BUFFER_SIZE: nat := 256
  const NUM_RETRIES: nat := 5

  /** The end of the retry loop, as the answers of the firmware determine it: whether a pool
      allocation was refused on the way, the exit, and the last info answer. */
  datatype QueryEnd = QueryEnd(refused: bool, exit: Exit, info: InfoAnswer)

  function QueryLoop(pool: seq<bool>, infos: seq<InfoAnswer>, tries: nat, refused: bool): QueryEnd
    decreases tries
  {
    var info := NextInfo(infos);
    if tries == 0 then QueryEnd(refused, TooManyRetries, info)
    else if info.status == Success then QueryEnd(refused, InfoFound, info)
    else if info.status != BufferTooSmall then QueryEnd(refused, InfoFailed, info)
    else QueryLoop(Later(pool), Later(infos), tries - 1, refused || !NextGranted(pool))
  }

  function Query(pool: seq<bool>, infos: seq<InfoAnswer>): QueryEnd {
    if !NextGranted(pool) then QueryEnd(true, NoInfoBuffer, NextInfo(infos))
    else QueryLoop(Later(pool), infos, NUM_RETRIES, false)
  }

  /** How many queries the loop makes. */
  function Calls(infos: seq<InfoAnswer>, tries: nat): nat
    decreases tries
  {
    if tries == 0 then 0
    else if NextInfo(infos).status != BufferTooSmall then 1
    else 1 + Calls(Later(infos), tries - 1)
  }

  /** The `j`th pool allocation is refused. */
  predicate RefusedAt(pool: seq<bool>, j: nat) {
    j >= |pool| || !pool[j]
  }

  lemma RefusedLater(pool: seq<bool>)
    ensures forall j: nat :: RefusedAt(Later(pool), j) <==> RefusedAt(pool, j + 1)
    ensures RefusedAt(pool, 0) <==> !NextGranted(pool)
  {
  }

  lemma {:induction false} LoopMeaning(pool: seq<bool>, infos: seq<InfoAnswer>, tries: nat, refused: bool, k: nat)
    requires k <= tries && k <= |infos| && forall i :: 0 <= i < k ==> infos[i].status == BufferTooSmall
    requires k < tries ==> k < |infos| && infos[k].status != BufferTooSmall
    ensures var q := QueryLoop(pool, infos, tries, refused);
      && q.exit == (if k == tries then TooManyRetries
                    else if infos[k].status == Success then InfoFound else InfoFailed)
      && (k < tries ==> q.info == infos[k])
      && (q.refused <==> refused || exists j :: 0 <= j < k && RefusedAt(pool, j))
    ensures Calls(infos, tries) == if k == tries then k else k + 1
    decreases k
  {
    if k > 0 {
      RefusedLater(pool);
      LoopMeaning(Later(pool), Later(infos), tries - 1, refused || !NextGranted(pool), k - 1);
      hide RefusedAt;
      if j :| 0 <= j < k && RefusedAt(pool, j) && j > 0 {
        assert RefusedAt(Later(pool), j - 1);
      }
      if j :| 0 <= j < k - 1 && RefusedAt(Later(pool), j) {
        assert RefusedAt(pool, j + 1);
      }
    }
  }

  /** The retry loop in closed form: after `k` answers that the buffer is too small, fewer than
      five, the next answer decides; after five the loop gives up.  An allocation was refused if one
      of those for the `k` larger buffers was. */
  lemma QueryExactly(pool: seq<bool>, infos: seq<InfoAnswer>, k: nat)
    requires |pool| > 0 && pool[0]
    requires k <= 5 && k <= |infos| && forall i :: 0 <= i < k ==> infos[i].status == BufferTooSmall
    requires k < 5 ==> k < |infos| && infos[k].status != BufferTooSmall
    ensures var q := Query(pool, infos);
      && (k == 5 ==> q.exit == TooManyRetries)
      && (k < 5 ==> q.info == infos[k])
      && (k < 5 ==> q.exit == if infos[k].status == Success then InfoFound else InfoFailed)
      && (q.refused <==> exists j :: 1 <= j <= k && RefusedAt(pool, j))
    ensures Calls(infos, 5) == if k == 5 then 5 else k + 1
  {
    hide QueryLoop;
    LoopMeaning(Later(pool), infos, 5, false, k);
    RefusedLater(pool);
    hide RefusedAt;
    if j :| 1 <= j <= k && RefusedAt(pool, j) {
      assert RefusedAt(Later(pool), j - 1);
    }
    if j :| 0 <= j < k && RefusedAt(Later(pool), j) {
      assert RefusedAt(pool, j + 1);
    }
  }

  /** The size of query `i`: 256 bytes first, then each time what the firmware asked for. */
  function SizeAsked(infos: seq<InfoAnswer>, i: nat): nat
    requires i <= |infos|
  {
    if i == 0 then 256 else infos[i - 1].bufferSize
  }

  /** The last `n` queries have these sizes. */
  ghost predicate Asked(before: seq<nat>, asked: seq<nat>, infos: seq<InfoAnswer>, n: nat) {
    && |asked| == |before| + n && before <= asked && n <= |infos| + 1
    && forall i :: |before| <= i < |asked| ==> asked[i] == SizeAsked(infos, i - |before|)
  }

  function NeededPages(fileSize: nat): nat {
    (fileSize + (PAGE_SIZE - 1)) / PAGE_SIZE
  }

  predicate GoodSize(fileSize: nat) {
    fileSize != 0 && fileSize <= MAX_FILE_SIZE
  }

  /** The answers lead to the final read: info found, a good size, and pages for it. */
  predicate ReachesRead(q: QueryEnd, u: Supply, size: nat) {
    q.exit == InfoFound && GoodSize(q.info.fileSize) && u.Grants(NeededPages(q.info.fileSize), size)
  }

  /** The exit of `readFile`, as the answers of the firmware determine it. */
  function ExitOf(q: QueryEnd, u: Supply, size: nat, read: ReadAnswer, disk: nat): Exit {
    if q.exit != InfoFound then q.exit
    else if !GoodSize(q.info.fileSize) then SizeRejected
    else if !ReachesRead(q, u, size) then NoPages
    else if read.status != Success then ReadFailed
    else FileRead(u.answers[0].start, BytesRead(read, q.info.fileSize, disk))
  }

  /** The size limit is 256 MiB, and an empty file is refused, too. */
  lemma SizeRejectedExactly(q: QueryEnd, u: Supply, size: nat, read: ReadAnswer, disk: nat)
    requires q.exit in {NoInfoBuffer, InfoFailed, TooManyRetries, InfoFound}
    ensures ExitOf(q, u, size, read, disk) == SizeRejected
      <==> q.exit == InfoFound && (q.info.fileSize == 0 || q.info.fileSize > 0x1000_0000)
  {
  }

  /** The pages asked for cover the file with less than a page to spare. */
  lemma NeededExactly(fileSize: nat)
    ensures fileSize <= NeededPages(fileSize) * 4096 < fileSize + 4096
  {
  }

  /** The error codes by status: every other status gives the unknown error. */
  lemma ErrorForExactly(status: Status)
    ensures ErrorFor(status) == KernelVolumeCorrupted <==> status == VolumeCorrupted
    ensures ErrorFor(status) == KernelNotFound <==> status == NoMedia
    ensures ErrorFor(status) == UnknownError <==> status !in {VolumeCorrupted, NoMedia}
  {
  }

  /** The info buffer between two steps: live with the current size unless an allocation was
      refused, and the only live buffer of ours. */
  ghost predicate Owns(live: map<nat, nat>, live0: map<nat, nat>, buffer: nat, size: nat, refused: bool) {
    if buffer in live then buffer !in live0 && live == live0[buffer := size]
    else live == live0 && refused
  }

  /** What the ledger shows: something wrong exactly when an allocation was refused. */
  ghost predicate Ledger(refused: bool, frees0: nat, uses0: nat, frees: nat, uses: nat) {
    && frees0 <= frees && uses0 <= uses
    && (refused <==> frees0 < frees || uses0 < uses)
  }

  /** Between two queries, after `n` of them: what was asked, what is left of the answers, and the
      size to ask for next. */
  ghost predicate Asking(before: seq<nat>, asked: seq<nat>, infos0: seq<InfoAnswer>, infos: seq<InfoAnswer>, n: nat,
                         size: nat)
  {
    && n <= 5 && n <= |infos0| && infos == infos0[n..] && size == SizeAsked(infos0, n)
    && Asked(before, asked, infos0, n) && Calls(infos0, 5) == n + Calls(infos, 5 - n)
  }

  lemma StartAsking(asked: seq<nat>, infos: seq<InfoAnswer>)
    ensures Asking(asked, asked, infos, infos, 0, DEFAULT_BUFFER_SIZE)
  {
    hide Calls;
  }

  lemma AskStep(before: seq<nat>, asked: seq<nat>, infos0: seq<InfoAnswer>, infos: seq<InfoAnswer>, n: nat, size: nat)
    requires Asking(before, asked, infos0, infos, n, size) && n < 5
    ensures if NextInfo(infos).status == BufferTooSmall
            then Asking(before, asked + [size], infos0, Later(infos), n + 1, NextInfo(infos).bufferSize)
            else Asked(before, asked + [size], infos0, Calls(infos0, 5))
  {
  }

  lemma EndAsking(before: seq<nat>, asked: seq<nat>, infos0: seq<InfoAnswer>, infos: seq<InfoAnswer>, size: nat)
    requires Asking(before, asked, infos0, infos, 5, size)
    ensures Asked(before, asked, infos0, Calls(infos0, 5))
  {
  }

  lemma {:induction false} AtMost(infos: seq<InfoAnswer>, tries: nat)
    ensures Calls(infos, tries) <= tries
  {
    if tries > 0 {
      AtMost(Later(infos), tries - 1);
    }
  }

  lemma LoopStep(pool: seq<bool>, infos: seq<InfoAnswer>, tries: nat, refused: bool)
    ensures QueryLoop(pool, infos, 0, refused) == QueryEnd(refused, TooManyRetries, NextInfo(infos))
    ensures tries > 0 ==>
      QueryLoop(pool, infos, tries, refused) ==
      if NextInfo(infos).status == BufferTooSmall
      then QueryLoop(Later(pool), Later(infos), tries - 1, refused || !NextGranted(pool))
      else QueryEnd(refused, if NextInfo(infos).status == Success then InfoFound else InfoFailed, NextInfo(infos))
  {
  }

  lemma NeverAsked(asked: seq<nat>, infos: seq<InfoAnswer>)
    ensures Asked(asked, asked, infos, 0)
  {
  }

  function AfterUse(b: Book, buffer: nat, size: nat): Book {
    if buffer in b.live && b.live[buffer] == size then b else b.(uses := b.uses + 1)
  }

  function AfterFree(b: Book, buffer: nat): Book {
    if buffer in b.live then b.(live := b.live - {buffer}) else b.(frees := b.frees + 1)
  }

  /** Between two steps of the loop. */
  ghost predicate Holding(b0: Book, b: Book, buffer: nat, size: nat, refused: bool) {
    && Owns(b.live, b0.live, buffer, size, refused) && b0.frees <= b.frees && b0.uses <= b.uses
    && (buffer in b.live ==> Ledger(refused, b0.frees, b0.uses, b.frees, b.uses))
  }

  /** A query, a free and the next allocation. */
  lemma HoldOn(b0: Book, b: Book, buffer: nat, size: nat, refused: bool, b': Book, ok: bool, buffer': nat, size': nat)
    requires Holding(b0, b, buffer, size, refused)
    requires var c := AfterFree(AfterUse(b, buffer, size), buffer);
      if ok then buffer' !in c.live && b' == c.(live := c.live[buffer' := size']) else buffer' == buffer && b' == c
    ensures Holding(b0, b', buffer', size', refused || !ok)
  {
  }

  /** After the last query, before the buffer is freed. */
  ghost predicate Released(b0: Book, b: Book, buffer: nat, size: nat, refused: bool) {
    Owns(b.live, b0.live, buffer, size, refused) && Ledger(refused, b0.frees, b0.uses, b.frees, b.uses)
  }

  /** A query, and a free without one. */
  lemma LetGo(b0: Book, b: Book, buffer: nat, size: nat, refused: bool)
    requires Holding(b0, b, buffer, size, refused)
    ensures Released(b0, AfterUse(b, buffer, size), buffer, size, refused)
    ensures var c := AfterFree(b, buffer);
      c.live == b0.live && Ledger(refused, b0.frees, b0.uses, c.frees, c.uses)
  {
  }

  /** A free after the last query. */
  lemma LetGoLate(b0: Book, b: Book, buffer: nat, size: nat, refused: bool)
    requires Released(b0, b, buffer, size, refused)
    ensures Owns(b.live, b0.live, buffer, size, refused) && Ledger(refused, b0.frees, b0.uses, b.frees, b.uses)
    ensures var c := AfterFree(b, buffer);
      c.live == b0.live && Ledger(refused, b0.frees, b0.uses, c.frees, c.uses)
  {
  }

  lemma NotHeld(b0: Book, buffer: nat)
    requires buffer !in b0.live
    ensures var c := AfterFree(b0, buffer);
      c.live == b0.live && Ledger(true, b0.frees, b0.uses, c.frees, c.uses)
  {
  }

  lemma FirstHold(b0: Book, buffer: nat, size: nat)
    requires buffer !in b0.live
    ensures Holding(b0, b0.(live := b0.live[buffer := size]), buffer, size, false)
  {
  }

  /** One round of the retry loop: the query and, if the buffer was too small, another buffer of the
      size the firmware asks for. */
  method AskOnce(pool: Pool, file: FileHandle, bufferSize: nat, infoBuffer: nat, ghost book0: Book,
                 ghost asked0: seq<nat>, ghost infos0: seq<InfoAnswer>, ghost retries: nat, ghost refused: bool)
    returns (info: InfoAnswer, newSize: nat, newBuffer: nat)
    requires pool.Valid() && Holding(book0, pool.Now(), infoBuffer, bufferSize, refused)
    requires retries < 5 && Asking(asked0, file.asked, infos0, file.infoAnswers, retries, bufferSize)
    modifies pool, file
    ensures pool.Valid() && info == NextInfo(old(file.infoAnswers)) && file.infoAnswers == Later(old(file.infoAnswers))
    ensures info.status == BufferTooSmall ==>
      && pool.answers == Later(old(pool.answers))
      && Holding(book0, pool.Now(), newBuffer, newSize, refused || !NextGranted(old(pool.answers)))
      && Asking(asked0, file.asked, infos0, file.infoAnswers, retries + 1, newSize)
    ensures info.status != BufferTooSmall ==>
      && newBuffer == infoBuffer && Released(book0, pool.Now(), infoBuffer, bufferSize, refused)
      && Asked(asked0, file.asked, infos0, Calls(infos0, 5))
  {
    hide Asking, Asked, Calls, Holding, Owns, Ledger, Released;
    ghost var asked1, infos1, book1 := file.asked, file.infoAnswers, pool.Now();
    LetGo(book0, book1, infoBuffer, bufferSize, refused);
    AskStep(asked0, asked1, infos0, infos1, retries, bufferSize);
    info := file.GetInfo(pool, bufferSize, infoBuffer);
    newSize, newBuffer := info.bufferSize, infoBuffer;
    if info.status == BufferTooSmall {
      var ok;
      pool.FreePool(infoBuffer);
      ok, newBuffer := pool.AllocatePool(newSize, infoBuffer);
      HoldOn(book0, book1, infoBuffer, bufferSize, refused, pool.Now(), ok, newBuffer, newSize);
    }
  }

  /** The retry loop: an info buffer and the answer, or an early exit. */
  method QueryInfo(pool: Pool, file: FileHandle, uninitialised: nat)
    returns (exit: Exit, error: KernelLoadError, info: InfoAnswer, infoBuffer: nat, ghost size: nat)
    requires pool.Valid() && uninitialised !in pool.live
    modifies pool, file
    ensures pool.Valid()
    ensures Asked(old(file.asked), file.asked, old(file.infoAnswers),
                  if NextGranted(old(pool.answers)) then Calls(old(file.infoAnswers), 5) else 0)
    ensures exit == Query(old(pool.answers), old(file.infoAnswers)).exit
    ensures exit in {NoInfoBuffer, InfoFailed, TooManyRetries, InfoFound}
    ensures exit == InfoFound ==> info == Query(old(pool.answers), old(file.infoAnswers)).info
    ensures exit == InfoFound ==>
      Owns(pool.live, old(pool.live), infoBuffer, size, Query(old(pool.answers), old(file.infoAnswers)).refused)
    ensures exit != InfoFound ==> pool.live == old(pool.live)
    ensures Ledger(Query(old(pool.answers), old(file.infoAnswers)).refused,
                   old(pool.badFrees), old(pool.badUses), pool.badFrees, pool.badUses)
    ensures error == if exit == InfoFailed then ErrorFor(Query(old(pool.answers), old(file.infoAnswers)).info.status)
                     else UnknownError
  {
    hide Asking, Asked, Calls, ErrorFor, QueryLoop, Holding, Owns, Ledger, Released;
    StartAsking(file.asked, file.infoAnswers);
    NeverAsked(file.asked, file.infoAnswers);
    error, info, infoBuffer := UnknownError, InfoAnswer(OtherError, 0, 0), uninitialised;
    ghost var end := Query(pool.answers, file.infoAnswers);
    var bufferSize := DEFAULT_BUFFER_SIZE;
    size := bufferSize;
    ghost var book0, asked0, infos0 := pool.Now(), file.asked, file.infoAnswers;
    NotHeld(book0, uninitialised);
    var ok;
    ok, infoBuffer := pool.AllocatePool(bufferSize, uninitialised);
    if !ok {
      pool.FreePool(infoBuffer);
      exit := NoInfoBuffer;
      return;
    }

    FirstHold(book0, infoBuffer, bufferSize);
    var retries := 0;
    ghost var refused := false;
    while retries < NUM_RETRIES
      invariant pool.Valid() && retries <= NUM_RETRIES && size == bufferSize
      invariant Asking(asked0, file.asked, infos0, file.infoAnswers, retries, bufferSize)
      invariant end == QueryLoop(pool.answers, file.infoAnswers, NUM_RETRIES - retries, refused)
      invariant Holding(book0, pool.Now(), infoBuffer, bufferSize, refused)
    {
      LoopStep(pool.answers, file.infoAnswers, NUM_RETRIES - retries, refused);
      ghost var granted := NextGranted(pool.answers);
      info, bufferSize, infoBuffer :=
        AskOnce(pool, file, bufferSize, infoBuffer, book0, asked0, infos0, retries, refused);
      if info.status != BufferTooSmall {
        LetGoLate(book0, pool.Now(), infoBuffer, size, refused);
        if info.status == Success {
          exit := InfoFound;
          return;
        }
        error := ErrorFor(info.status);
        pool.FreePool(infoBuffer);
        exit := InfoFailed;
        return;
      }
      refused := refused || !granted;
      retries := retries + 1;
      size := bufferSize;
    }
    LetGo(book0, pool.Now(), infoBuffer, bufferSize, refused);
    LoopStep(pool.answers, file.infoAnswers, 0, refused);
    EndAsking(asked0, file.asked, infos0, file.infoAnswers, bufferSize);
    pool.FreePool(infoBuffer);
    exit := TooManyRetries;
  }

  method ReadFile(pool: Pool, alloc: PageAllocator, file: FileHandle, uninitialised: nat)
    returns (exit: Exit, error: KernelLoadError, ghost region: Region)
    requires pool.Valid() && alloc.Valid() && uninitialised !in pool.live
    modifies pool, alloc, file, alloc.ram
    ensures pool.Valid() && alloc.Valid()
    ensures Asked(old(file.asked), file.asked, old(file.infoAnswers),
                  if NextGranted(old(pool.answers)) then Calls(old(file.infoAnswers), 5) else 0)
    ensures |file.asked| <= |old(file.asked)| + 5
    ensures exit == ExitOf(Query(old(pool.answers), old(file.infoAnswers)), old(alloc.Now()), alloc.ram.Length,
                           file.readAnswer, |file.disk|)
    // Only the pages allocated for the file are written, on every exit.
    ensures Confined(old(alloc.ram[..]), alloc.ram[..], old(alloc.live), alloc.live)
    // No pool buffer leaks, on any exit and against any firmware.
    ensures pool.live == old(pool.live)
    // The pool discipline holds exactly when no pool allocation is refused on the way and the
    // final read, if it is reached, succeeds.
    ensures pool.badFrees == old(pool.badFrees) && pool.badUses == old(pool.badUses) <==>
      var q := Query(old(pool.answers), old(file.infoAnswers));
      !q.refused && (ReachesRead(q, old(alloc.Now()), alloc.ram.Length) ==> file.readAnswer.status == Success)
    // On the read failure the freed buffer is freed once more, and that is all.
    ensures !Query(old(pool.answers), old(file.infoAnswers)).refused && exit == ReadFailed
      ==> pool.badFrees == old(pool.badFrees) + 1 && pool.badUses == old(pool.badUses)
    ensures error == match exit
                     case InfoFailed => ErrorFor(Query(old(pool.answers), old(file.infoAnswers)).info.status)
                     case ReadFailed => ErrorFor(file.readAnswer.status)
                     case _ => UnknownError
    ensures exit.FileRead? ==>
      && region == Region(exit.buffer, NeededPages(Query(old(pool.answers), old(file.infoAnswers)).info.fileSize))
      && 0 < region.start && 0 < region.pages
      && exit.size <= |file.disk| && exit.size <= MAX_FILE_SIZE && exit.size <= region.pages * PAGE_SIZE
      && alloc.Now() == old(alloc.Now()).After(region.pages, alloc.ram.Length)
      && alloc.live == old(alloc.live) + [region] && ApartFromAll(region, old(alloc.live))
      && OnlyInside(old(alloc.ram[..]), alloc.ram[..], region)
      && Holds(alloc.ram[..], Image(region, file.disk[..exit.size]))
  {
    AtMost(file.infoAnswers, 5);
    hide Calls;
    hide ApartFromAll, QueryLoop, Query, Confined, OnlyInside, Holds, LegalAnswer, ErrorFor, AllApart, AllWithin;
    region := Region(0, 0);
    NothingWritten(alloc.ram[..], alloc.live);
    var info, infoBuffer;
    ghost var size;
    exit, error, info, infoBuffer, size := QueryInfo(pool, file, uninitialised);
    if exit != InfoFound {
      return;
    }
    var fileSize := info.fileSize;
    if fileSize == 0 || fileSize > MAX_FILE_SIZE {
      pool.FreePool(infoBuffer);
      exit := SizeRejected;
      return;
    }
    var neededPages := NeededPages(fileSize);
    pool.FreePool(infoBuffer);
    assert pool.live == old(pool.live);

    var granted, address := alloc.AllocatePages(neededPages);
    if !granted {
      exit := NoPages;
      return;
    }
    ghost var m := alloc.ram[..];
    region := Region(address, neededPages);
    var status, count := file.Read(alloc.ram, fileSize, address, region);
    ConfinedByRegion(m, alloc.ram[..], old(alloc.live), region);
    if status == Success {
      exit := FileRead(address, count);
      return;
    }
    error := ErrorFor(status);
    pool.FreePool(infoBuffer);
    exit := ReadFailed;
  }

  /** A concrete firmware that reaches the double free: the size is found at once, the pages are
      there, and the read reports a corrupted volume. */
  method DoubleFreeRun(ram: array<Byte>) returns (pool: Pool, error: KernelLoadError)
    requires 2 * PAGE_SIZE <= ram.Length <= ADDRESS_SPACE
    modifies ram
    ensures pool.badFrees == 1 && pool.badUses == 0 && pool.live == map[]
    ensures error == KernelVolumeCorrupted
  {
    pool := new Pool([true]);
    var alloc := new PageAllocator(ram, [At(PAGE_SIZE)]);
    var file := new FileHandle([InfoAnswer(Success, 256, 1)], ReadAnswer(VolumeCorrupted, 0), []);
    ghost var q := Query([true], [InfoAnswer(Success, 256, 1)]);
    assert q == QueryEnd(false, InfoFound, InfoAnswer(Success, 256, 1));
    assert NeededPages(1) == 1 && ReachesRead(q, Supply([At(PAGE_SIZE)], []), ram.Length);
    var exit;
    ghost var region;
    exit, error, region := ReadFile(pool, alloc, file, 0);
  }
}

/** ReadStat's I/O handlers over a file held in memory: a cursor into a
    byte buffer, with the open, close, seek, read and progress-update
    callbacks the parser calls in place of file system calls. */
module BufferIo {
  import opened ReadstatErrors

  type Byte = b: int | 0 <= b < 256

  /** `buffer_io_ctx_t`: the buffer, its size, and the read position. The
      position may lie beyond the end: seeking there is allowed. */
  datatype BufferCtx = BufferCtx(buf: seq<Byte>, size: nat, pos: nat)

  /** The caller of `buffer_io_init` hands over a buffer holding at least
      `size` bytes. */
  predicate Valid(ctx: BufferCtx) {
    ctx.size <= |ctx.buf|
  }

  /** `buffer_open_handler`: rewinds to the start. */
  function Open(ctx: BufferCtx): (r: (HandlerStatus, BufferCtx))
    ensures r.0 == HandlerOk
    ensures r.1.pos == 0 && r.1.buf == ctx.buf && r.1.size == ctx.size
  {
    (HandlerOk, ctx.(pos := 0))
  }

  /** `buffer_close_handler`: rewinds to the start as well. */
  function Close(ctx: BufferCtx): (r: (HandlerStatus, BufferCtx))
    ensures r.0 == HandlerOk
    ensures r.1.pos == 0 && r.1.buf == ctx.buf && r.1.size == ctx.size
  {
    (HandlerOk, ctx.(pos := 0))
  }

  /** `readstat_io_flags_t` as the seek handler sees it: the three
      positions it knows, and any other flag value. */
  datatype Whence = SeekSet | SeekCur | SeekEnd | OtherWhence(flags: int)

  /** The position a seek aims at, relative to the start, the current
      position or the end; none for a flag the handler does not know. */
  function SeekTarget(ctx: BufferCtx, offset: int, whence: Whence): (t: int)
    requires !whence.OtherWhence?
  {
    match whence
    case SeekSet => offset
    case SeekCur => ctx.pos + offset
    case SeekEnd => ctx.size + offset
  }

  /** `buffer_seek_handler`: the new position, or -1 when the flag is
      unknown or the target lies before the start; on -1 the position is
      left as it was. A target past the end is accepted. */
  function Seek(ctx: BufferCtx, offset: int, whence: Whence): (r: (int, BufferCtx))
    ensures r.0 == -1 || r.0 >= 0
    ensures r.0 == -1 <==> whence.OtherWhence? || SeekTarget(ctx, offset, whence) < 0
    ensures r.0 == -1 ==> r.1 == ctx
    ensures r.0 >= 0 ==> r.1 == ctx.(pos := r.0) && r.0 == SeekTarget(ctx, offset, whence)
  {
    if whence.OtherWhence? then (-1, ctx)
    else
      var target := SeekTarget(ctx, offset, whence);
      if target < 0 then (-1, ctx)
      else (target, ctx.(pos := target))
  }

  /** The result of a read: the byte count the handler returns, the bytes
      it copies out, and the context afterwards. */
  datatype ReadOutcome = ReadOutcome(count: nat, data: seq<Byte>, ctx: BufferCtx)

  /** The bytes left to read: none when the position is at or past the
      end. */
  function Available(ctx: BufferCtx): (n: nat)
    ensures n == 0 <==> ctx.pos >= ctx.size
    ensures n > 0 ==> ctx.pos + n == ctx.size
  {
    if ctx.pos < ctx.size then ctx.size - ctx.pos else 0
  }

  /** `buffer_read_handler`: copies out as many of the `nbyte` requested
      bytes as are left and advances past them; nothing is read, and the
      position stays, when none is left or none is asked for. */
  function Read(ctx: BufferCtx, nbyte: nat): (r: ReadOutcome)
    requires Valid(ctx)
    ensures r.count == if nbyte < Available(ctx) then nbyte else Available(ctx)
    ensures |r.data| == r.count
    ensures r.count > 0 ==> ctx.pos + r.count <= |ctx.buf| && r.data == ctx.buf[ctx.pos..ctx.pos + r.count]
    ensures r.ctx == ctx.(pos := ctx.pos + r.count)
  {
    var available: int := ctx.size - ctx.pos;
    var n: int := if nbyte > available then (if available > 0 then available else 0) else nbyte;
    if n <= 0 then ReadOutcome(0, [], ctx)
    else ReadOutcome(n, ctx.buf[ctx.pos..ctx.pos + n], ctx.(pos := ctx.pos + n))
  }

  /** What the progress callback answers: there is none, or it returns
      this value. Calling it is outside the model; its answer is a
      parameter. */
  datatype ProgressHandler = NoHandler | Handler(answer: int)

  /** `buffer_update_handler`: the parser is told to stop exactly when a
      callback is set and answers non-zero. */
  function Update(handler: ProgressHandler): (r: ReadstatError)
    ensures r == ErrorUserAbort <==> handler.Handler? && handler.answer != 0
    ensures r == ReadstatOk || r == ErrorUserAbort
  {
    match handler
    case NoHandler => ReadstatOk
    case Handler(answer) => if answer != 0 then ErrorUserAbort else ReadstatOk
  }

  // ---------------------------------------------------------------------
  // How the handlers combine

  /** Every handler keeps the buffer and its size, and so the context stays
      valid; only the position moves. */
  lemma HandlersKeepBuffer(ctx: BufferCtx, offset: int, whence: Whence, nbyte: nat)
    requires Valid(ctx)
    ensures Open(ctx).1.buf == ctx.buf && Open(ctx).1.size == ctx.size
    ensures Close(ctx).1.buf == ctx.buf && Close(ctx).1.size == ctx.size
    ensures Seek(ctx, offset, whence).1.buf == ctx.buf && Seek(ctx, offset, whence).1.size == ctx.size
    ensures Read(ctx, nbyte).ctx.buf == ctx.buf && Read(ctx, nbyte).ctx.size == ctx.size
    ensures Valid(Open(ctx).1) && Valid(Close(ctx).1) && Valid(Seek(ctx, offset, whence).1)
    ensures Valid(Read(ctx, nbyte).ctx)
  {
  }

  /** A position at or before the end stays so after a read. */
  lemma ReadStaysWithinBuffer(ctx: BufferCtx, nbyte: nat)
    requires Valid(ctx) && ctx.pos <= ctx.size
    ensures Read(ctx, nbyte).ctx.pos <= ctx.size
  {
  }

  /** Two reads in a row return what one read of both counts returns. */
  lemma ReadsCompose(ctx: BufferCtx, n1: nat, n2: nat)
    requires Valid(ctx)
    ensures var first := Read(ctx, n1);
            var second := Read(first.ctx, n2);
            var both := Read(ctx, n1 + n2);
            first.count + second.count == both.count && first.data + second.data == both.data
            && second.ctx == both.ctx
  {
    var first := Read(ctx, n1);
    var second := Read(first.ctx, n2);
    var both := Read(ctx, n1 + n2);
    if both.count > 0 {
      assert first.data + second.data == ctx.buf[ctx.pos..ctx.pos + both.count];
    }
  }

  /** After opening, a read starts at the first byte. */
  lemma ReadAfterOpen(ctx: BufferCtx, nbyte: nat)
    requires Valid(ctx)
    ensures Read(Open(ctx).1, nbyte).data == ctx.buf[..if nbyte < ctx.size then nbyte else ctx.size]
  {
  }

  /** A read after seeking to `offset` from the start returns the bytes from
      `offset` on, as many as were asked for and are there. */
  lemma ReadAfterSeekSet(ctx: BufferCtx, offset: nat, nbyte: nat)
    requires Valid(ctx)
    ensures var moved := Seek(ctx, offset, SeekSet);
            var n := if offset >= ctx.size then 0 else if nbyte < ctx.size - offset then nbyte else ctx.size - offset;
            moved.0 == offset && Read(moved.1, nbyte).data == (if n == 0 then [] else ctx.buf[offset..offset + n])
  {
  }

  /** Seeking to the end leaves nothing to read, and so does any seek past
      it. */
  lemma NothingAfterEnd(ctx: BufferCtx, offset: nat, nbyte: nat)
    requires Valid(ctx)
    ensures var moved := Seek(ctx, offset, SeekEnd);
            moved.0 == ctx.size + offset && Read(moved.1, nbyte).count == 0 && Read(moved.1, nbyte).ctx == moved.1
  {
  }

  /** A seek relative to the current position by zero changes nothing and
      reports where the cursor is. */
  lemma SeekCurZero(ctx: BufferCtx)
    ensures Seek(ctx, 0, SeekCur) == (ctx.pos as int, ctx)
  {
  }

  /** Seeking back over bytes just read and reading them again returns
      the same bytes. */
  lemma RereadAfterSeekBack(ctx: BufferCtx, nbyte: nat)
    requires Valid(ctx)
    ensures var first := Read(ctx, nbyte);
            var back := Seek(first.ctx, -(first.count as int), SeekCur);
            back.1 == ctx && Read(back.1, nbyte) == first
  {
  }
}

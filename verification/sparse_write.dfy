/** Writing sparse files (src/xz/file_io.c): the file that results must hold exactly
    the bytes that a writer of every single zero would have left. */
module SparseWrite {
  import opened Common

  const IO_BUFFER_SIZE: nat := 8192

  function Zeros(n: nat): (z: seq<byte>)
    ensures |z| == n && forall i :: 0 <= i < n ==> z[i] == 0
  {
    seq(n, _ => 0)
  }

  // ---------- what writing means ----------

  /** A file after `data` was written at position `at`; a gap before it reads as zeros. */
  function Overwrite(content: seq<byte>, at: nat, data: seq<byte>): seq<byte> {
    if data == [] then content
    else
      var end := at + |data|;
      var padded := if |content| < end then content + Zeros(end - |content|) else content;
      padded[..at] + data + padded[end..]
  }

  ghost predicate IsOverwrite(r: seq<byte>, content: seq<byte>, at: nat, data: seq<byte>) {
    && |r| == (if data == [] || at + |data| < |content| then |content| else at + |data|)
    && forall i :: 0 <= i < |r| ==>
         r[i] == if at <= i < at + |data| then data[i - at] else if i < |content| then content[i] else 0
  }

  lemma OverwriteIs(content: seq<byte>, at: nat, data: seq<byte>)
    ensures IsOverwrite(Overwrite(content, at, data), content, at, data)
  {}

  /** Two consecutive writes are one. */
  lemma OverwriteTwice(content: seq<byte>, at: nat, a: seq<byte>, b: seq<byte>)
    ensures Overwrite(Overwrite(content, at, a), at + |a|, b) == Overwrite(content, at, a + b)
  {
    hide Overwrite;
    var l, r := Overwrite(Overwrite(content, at, a), at + |a|, b), Overwrite(content, at, a + b);
    OverwriteIs(content, at, a);
    OverwriteIs(Overwrite(content, at, a), at + |a|, b);
    OverwriteIs(content, at, a + b);
    assert |l| == |r|;
    forall i | 0 <= i < |l|
      ensures l[i] == r[i]
    {}
  }

  /** At the end of a file a hole may be skipped instead of written. */
  lemma SkippedHole(content: seq<byte>, hole: nat, data: seq<byte>)
    requires data != []
    ensures Overwrite(content, |content| + hole, data) == Overwrite(content, |content|, Zeros(hole) + data)
  {
    hide Overwrite, Zeros;
    var l, r := Overwrite(content, |content| + hole, data), Overwrite(content, |content|, Zeros(hole) + data);
    OverwriteIs(content, |content| + hole, data);
    OverwriteIs(content, |content|, Zeros(hole) + data);
    assert |l| == |r|;
    forall i | 0 <= i < |l|
      ensures l[i] == r[i]
    {}
  }

  /** Before the end it may be skipped only over bytes that are zeros already. */
  lemma SkippedHoleElsewhere(content: seq<byte>, at: nat, hole: nat, data: seq<byte>)
    requires data != []
    ensures Overwrite(content, at + hole, data) == Overwrite(content, at, Zeros(hole) + data)
       <==> forall i :: at <= i < at + hole && i < |content| ==> content[i] == 0
  {
    hide Overwrite, Zeros;
    var l, r := Overwrite(content, at + hole, data), Overwrite(content, at, Zeros(hole) + data);
    OverwriteIs(content, at + hole, data);
    OverwriteIs(content, at, Zeros(hole) + data);
    assert |l| == |r|;
    assert forall i :: at <= i < at + hole ==> r[i] == 0;
    assert forall i :: at <= i < at + hole ==> l[i] == if i < |content| then content[i] else 0;
    assert forall i :: 0 <= i < |l| && !(at <= i < at + hole) ==> l[i] == r[i];
    if l == r {
      forall i | at <= i < at + hole && i < |content|
        ensures content[i] == 0
      {
        assert l[i] == content[i];
      }
    }
  }

  // ---------- is_sparse ----------

  /** The integer that eight bytes of memory hold, in either byte order. */
  function Word(littleEndian: bool, b: seq<byte>): nat {
    if b == [] then 0
    else if littleEndian then b[0] + 256 * Word(littleEndian, b[1..])
    else 256 * Word(littleEndian, b[..|b| - 1]) + b[|b| - 1]
  }

  lemma {:induction false} WordIsZero(littleEndian: bool, b: seq<byte>)
    ensures Word(littleEndian, b) == 0 <==> forall i :: 0 <= i < |b| ==> b[i] == 0
    decreases |b|
  {
    if b == [] {
    } else if littleEndian {
      WordIsZero(littleEndian, b[1..]);
      assert forall i :: 0 < i < |b| ==> b[i] == b[1..][i - 1];
    } else {
      WordIsZero(littleEndian, b[..|b| - 1]);
      assert forall i :: 0 <= i < |b| - 1 ==> b[i] == b[..|b| - 1][i];
    }
  }

  method IsSparse(buf: array<byte>, littleEndian: bool) returns (sparse: bool)
    requires buf.Length == IO_BUFFER_SIZE
    ensures sparse <==> forall k :: 0 <= k < IO_BUFFER_SIZE ==> buf[k] == 0
  {
    hide Word;
    var i := 0;
    while i < IO_BUFFER_SIZE / 8
      invariant 0 <= i <= IO_BUFFER_SIZE / 8
      invariant forall k :: 0 <= k < 8 * i ==> buf[k] == 0
    {
      ghost var word := buf[8 * i..8 * i + 8];
      WordIsZero(littleEndian, word);
      assert forall k :: 0 <= k < 8 ==> word[k] == buf[8 * i + k];
      if Word(littleEndian, buf[8 * i..8 * i + 8]) != 0 {
        return false;
      }
      assert forall k :: 8 * i <= k < 8 * i + 8 ==> buf[k] == word[k - 8 * i];
      i := i + 1;
    }
    return true;
  }

  // ---------- the destination ----------

  datatype WriteResult = Wrote(amount: nat) | TryAgain | Failed

  /** An open file.  The system decides how much of a write gets done, and how
      often it is interrupted, which happens finitely often. */
  class File {
    var content: seq<byte>
    var pos: nat
    var append: bool
    var interrupts: nat
    ghost var faults: nat  // system calls that failed for good, or were aborted

    /** Where the next byte goes. */
    function Where(): nat
      reads this
    {
      if append then |content| else pos
    }

    method Write(data: seq<byte>) returns (r: WriteResult)
      requires data != []
      modifies this
      ensures append == old(append) && interrupts <= old(interrupts)
      ensures faults == old(faults) + if r.Failed? then 1 else 0
      ensures !r.Wrote? ==> content == old(content) && pos == old(pos)
      ensures r.TryAgain? ==> interrupts < old(interrupts)
      ensures r.Wrote? ==>
                && 1 <= r.amount <= |data|
                && content == Overwrite(old(content), old(Where()), data[..r.amount])
                && Where() == old(Where()) + r.amount
    {
      hide Overwrite;
      if {
        case true =>
          var amount: nat :| 1 <= amount <= |data|;
          var at := Where();
          OverwriteIs(content, at, data[..amount]);
          content, pos := Overwrite(content, at, data[..amount]), at + amount;
          r := Wrote(amount);
        case interrupts > 0 =>
          interrupts, r := interrupts - 1, TryAgain;
        case true =>
          r, faults := Failed, faults + 1;
      }
    }

    method LseekForward(offset: nat) returns (ok: bool)
      modifies this`pos, this`faults
      ensures pos == old(pos) + if ok then offset else 0
      ensures faults == old(faults) + if ok then 0 else 1
    {
      if {
        case true =>
          pos, ok := pos + offset, true;
        case true =>
          ok, faults := false, faults + 1;
      }
    }
  }

  // ---------- file_pair ----------

  function Power256(n: nat): nat {
    if n == 0 then 1 else 256 * Power256(n - 1)
  }

  /** How the destination was opened. */
  datatype Destination =
    | NewFile                                  // created empty
    | Stdout(regular: bool, seekable: bool, flagsCleared: bool)  // could fcntl() clear O_APPEND?

  class FilePair {
    const dest: File
    const offBits: nat                  // the width of off_t
    var trySparse: bool
    var pendingSparse: nat

    function PendingMax(): nat {
      if offBits == 32 then 0x4000_0000 else 0x4000_0000_0000_0000
    }

    function OffMax(): nat {
      if offBits == 32 then 0x7FFF_FFFF else 0x7FFF_FFFF_FFFF_FFFF
    }

    /** off_t is signed, so that it reaches up to half of its 2^offBits values; a hole that
        may still grow is shorter than half of that. */
    lemma Limits()
      requires offBits in {32, 64}
      ensures 2 * PendingMax() == OffMax() + 1 && 2 * (OffMax() + 1) == Power256(offBits / 8)
    {
      assert Power256(4) == 0x1_0000_0000;
      assert Power256(8) == 0x1_0000_0000 * Power256(4);
    }

    ghost predicate Valid()
      reads this, dest
    {
      && offBits in {32, 64}
      && (trySparse ==> !dest.append && dest.pos == |dest.content|)
      && (pendingSparse > 0 ==> trySparse)
      && pendingSparse <= OffMax()
    }

    /** What a dense writer's file would hold by now. */
    ghost function Logical(): seq<byte>
      reads this, dest
    {
      Overwrite(dest.content, dest.Where(), Zeros(pendingSparse))
    }

    ghost function LogicalWhere(): nat
      reads this, dest
    {
      dest.Where() + pendingSparse
    }

    /** The end of io_open_dest: sparse output is tried only when writing starts at
        the end of a regular file. */
    constructor (dest: File, how: Destination, wanted: bool, offBits: nat)
      requires offBits in {32, 64}
      requires how.NewFile? ==> dest.content == [] && dest.pos == 0 && !dest.append
      modifies dest
      ensures this.dest == dest && this.offBits == offBits && Valid() && pendingSparse == 0
      ensures dest.content == old(dest.content) && dest.Where() == old(dest.Where()) && dest.faults == old(dest.faults)
      ensures trySparse <==>
                && wanted
                && (how.Stdout? ==>
                      && how.regular && how.seekable
                      && if old(dest.append) then how.flagsCleared else old(dest.pos) == |old(dest.content)|)
    {
      this.dest, this.offBits, pendingSparse := dest, offBits, 0;
      trySparse := false;
      new;
      if !wanted {
        return;
      }
      if how.Stdout? {
        if !how.regular {
          return;
        }
        if dest.append {
          if !how.seekable {
            return;
          }
          dest.pos := |dest.content|;
          if !how.flagsCleared {
            return;
          }
          dest.append := false;
        } else if !how.seekable || dest.pos != |dest.content| {
          return;
        }
      }
      trySparse := true;
    }

    /** io_write_buf: `done` bytes were written before it gave up, all if it did not. */
    method IoWriteBuf(buf: array<byte>, size: nat) returns (failed: bool, ghost done: nat)
      requires size <= IO_BUFFER_SIZE && size <= buf.Length
      modifies dest
      ensures dest.append == old(dest.append)
      ensures done <= size && (failed <==> done < size)
      ensures dest.faults == old(dest.faults) + if failed then 1 else 0
      ensures dest.content == Overwrite(old(dest.content), old(dest.Where()), buf[..done])
      ensures dest.Where() == old(dest.Where()) + done
    {
      hide Overwrite;
      ghost var content, at := dest.content, dest.Where();
      var written := 0;
      NothingWritten(content, at);
      assert buf[..0] == [];
      while written < size
        invariant written <= size
        invariant dest.append == old(dest.append) && dest.faults == old(dest.faults)
        invariant dest.content == Overwrite(content, at, buf[..written])
        invariant dest.Where() == at + written
        decreases size - written, dest.interrupts
      {
        var r := dest.Write(buf[written..size]);
        match r
        case Wrote(amount) =>
          OverwriteTwice(content, at, buf[..written], buf[written..size][..amount]);
          assert buf[..written] + buf[written..size][..amount] == buf[..written + amount];
          written := written + amount;
        case TryAgain =>
        case Failed =>
          return true, written;
      }
      return false, size;
    }

    /** io_write, before a block that is not sparse. */
    method SkipHole() returns (ok: bool)
      requires Valid() && trySparse
      modifies this`pendingSparse, dest`pos, dest`faults
      ensures dest.faults == old(dest.faults) + if ok then 0 else 1
      ensures ok ==> pendingSparse == 0 && dest.Where() == old(LogicalWhere())
    {
      ok := true;
      if pendingSparse > 0 {
        ok := dest.LseekForward(pendingSparse);
        if ok {
          pendingSparse := 0;
        }
      }
    }

    /** io_write, when the block may become part of a hole: `done` if that is all. */
    method TryHole(buf: array<byte>, size: nat, littleEndian: bool) returns (done: bool)
      requires Valid() && trySparse && size <= IO_BUFFER_SIZE == buf.Length
      modifies this`pendingSparse
      ensures done <==> size == 0 || (size == IO_BUFFER_SIZE && buf[..] == Zeros(size)
                                      && old(pendingSparse) < PendingMax())
      ensures pendingSparse == old(pendingSparse) + if done then size else 0
      ensures done ==>
                && Valid()
                && Logical() == Overwrite(old(Logical()), old(LogicalWhere()), buf[..size])
    {
      hide Overwrite;
      done := false;
      if size == IO_BUFFER_SIZE {
        var sparse := IsSparse(buf, littleEndian);
        assert sparse <==> buf[..] == Zeros(size);
        if sparse && pendingSparse < PendingMax() {
          HoleGrows(dest.content, dest.Where(), pendingSparse, buf[..size]);
          pendingSparse := pendingSparse + size;
          done := true;
        }
      } else if size == 0 {
        NothingWritten(Logical(), LogicalWhere());
        assert buf[..0] == [];
        done := true;
      }
    }

    /** io_write */
    method IoWrite(buf: array<byte>, size: nat, littleEndian: bool) returns (failed: bool)
      requires Valid() && size <= IO_BUFFER_SIZE == buf.Length
      modifies this`pendingSparse, dest
      ensures dest.faults == old(dest.faults) + if failed then 1 else 0
      ensures !failed ==>
                && Valid()
                && Logical() == Overwrite(old(Logical()), old(LogicalWhere()), buf[..size])
                && LogicalWhere() == old(LogicalWhere()) + size
      ensures trySparse && size == IO_BUFFER_SIZE && buf[..] == Zeros(size) && old(pendingSparse) < PendingMax() ==>
                !failed && dest.content == old(dest.content) && dest.pos == old(dest.pos)
    {
      hide Overwrite, Zeros;
      ghost var content, at, hole := dest.content, dest.Where(), pendingSparse;
      if trySparse {
        var isHole := TryHole(buf, size, littleEndian);
        if isHole {
          return false;
        }
        var ok := SkipHole();
        if !ok {
          return true;
        }
      }
      ghost var done;
      failed, done := IoWriteBuf(buf, size);
      if !failed {
        EndsThere(content, at + hole, buf[..size]);
        SkippedOrNot(content, at, hole, buf[..size]);
        NothingPending(dest.content, dest.Where());
      }
    }

    /** The part of io_close that finishes the destination's contents. */
    method IoClose(success: bool) returns (ok: bool)
      requires success ==> Valid()
      modifies dest
      ensures dest.faults >= old(dest.faults) && (ok <==> success && dest.faults == old(dest.faults))
      ensures ok ==> dest.content == old(Logical())
    {
      hide Overwrite;
      ok := success;
      if success && trySparse && pendingSparse > 0 {
        ok := dest.LseekForward(pendingSparse - 1);
        if ok {
          var zero := new byte[1] [0];
          var failed, _ := IoWriteBuf(zero, 1);
          if failed {
            ok := false;
          } else {
            assert zero[..1] == [0];
            assert Zeros(pendingSparse - 1) + [0] == Zeros(pendingSparse);
            SkippedHole(old(dest.content), pendingSparse - 1, [0]);
          }
        }
      } else if success {
        NothingPending(dest.content, dest.Where());
      }
    }
  }

  lemma NothingWritten(content: seq<byte>, at: nat)
    ensures Overwrite(content, at, []) == content
  {}

  lemma EndsThere(content: seq<byte>, at: nat, data: seq<byte>)
    ensures data != [] && at + |data| >= |content| ==> |Overwrite(content, at, data)| == at + |data|
  {
    OverwriteIs(content, at, data);
  }

  /** A pending hole exists only at the end of the file. */
  lemma SkippedOrNot(content: seq<byte>, at: nat, hole: nat, data: seq<byte>)
    requires hole > 0 ==> at == |content| && data != []
    ensures Overwrite(content, at + hole, data)
         == Overwrite(Overwrite(content, at, Zeros(hole)), at + hole, data)
  {
    hide Overwrite;
    OverwriteTwice(content, at, Zeros(hole), data);
    if hole > 0 {
      SkippedHole(content, hole, data);
    } else {
      NothingPending(content, at);
    }
  }

  lemma NothingPending(content: seq<byte>, at: nat)
    ensures Overwrite(content, at, Zeros(0)) == content
  {
    hide Overwrite;
    assert Zeros(0) == [];
    NothingWritten(content, at);
  }

  /** A block of zeros may be added to the pending hole. */
  lemma HoleGrows(content: seq<byte>, at: nat, hole: nat, block: seq<byte>)
    requires forall k :: 0 <= k < |block| ==> block[k] == 0
    ensures Overwrite(Overwrite(content, at, Zeros(hole)), at + hole, block)
         == Overwrite(content, at, Zeros(hole + |block|))
  {
    hide Overwrite;
    assert Zeros(hole) + block == Zeros(hole + |block|);
    OverwriteTwice(content, at, Zeros(hole), block);
  }

  lemma NothingConcat(content: seq<byte>, at: nat, bufs: seq<seq<byte>>)
    ensures Concat(bufs[..0]) == [] && Overwrite(content, at, Concat(bufs[..0])) == content
  {}

  lemma OneMore(content: seq<byte>, at: nat, bufs: seq<seq<byte>>, i: nat)
    requires i < |bufs|
    ensures Concat(bufs[..i + 1]) == Concat(bufs[..i]) + bufs[i]
    ensures Overwrite(Overwrite(content, at, Concat(bufs[..i])), at + |Concat(bufs[..i])|, bufs[i])
         == Overwrite(content, at, Concat(bufs[..i + 1]))
  {
    hide Overwrite;
    ConcatNext(bufs, i);
    OverwriteTwice(content, at, Concat(bufs[..i]), bufs[i]);
  }

  method FillBuffer(data: seq<byte>) returns (buf: array<byte>)
    requires |data| <= IO_BUFFER_SIZE
    ensures fresh(buf) && buf.Length == IO_BUFFER_SIZE && buf[..|data|] == data
  {
    buf := new byte[IO_BUFFER_SIZE](k requires 0 <= k < IO_BUFFER_SIZE => if k < |data| then data[k] else 0);
  }

  /** A whole run: open, any number of io_write calls, io_close.  It succeeds exactly
      when no system call fails, and then the destination holds what one dense write
      of everything would have left. */
  method WriteFile(dest: File, how: Destination, wanted: bool, offBits: nat, littleEndian: bool,
                   bufs: seq<seq<byte>>)
    returns (ok: bool)
    requires offBits in {32, 64}
    requires how.NewFile? ==> dest.content == [] && dest.pos == 0 && !dest.append
    requires forall i :: 0 <= i < |bufs| ==> |bufs[i]| <= IO_BUFFER_SIZE
    modifies dest
    ensures ok <==> dest.faults == old(dest.faults)
    ensures ok ==> dest.content == Overwrite(old(dest.content), old(dest.Where()), Concat(bufs))
  {
    hide Overwrite, Zeros, Concat;
    var pair := new FilePair(dest, how, wanted, offBits);
    ghost var content, at := dest.content, dest.Where();
    var i := 0;
    ok := true;
    NothingPending(content, at);
    NothingConcat(content, at, bufs);
    while i < |bufs| && ok
      invariant 0 <= i <= |bufs| && pair.dest == dest && fresh(pair)
      invariant dest.faults == old(dest.faults) + if ok then 0 else 1
      invariant ok ==>
                  && pair.Valid()
                  && pair.Logical() == Overwrite(content, at, Concat(bufs[..i]))
                  && pair.LogicalWhere() == at + |Concat(bufs[..i])|
      decreases |bufs| - i, ok
    {
      var buf := FillBuffer(bufs[i]);
      var failed := pair.IoWrite(buf, |bufs[i]|, littleEndian);
      ok := !failed;
      OneMore(content, at, bufs, i);
      i := i + 1;
    }
    assert bufs[..|bufs|] == bufs;
    ok := pair.IoClose(ok);
  }
}

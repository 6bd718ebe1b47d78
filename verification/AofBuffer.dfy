/**
 The AOF rewrite buffer of aof.c: a list of fixed-size blocks that a server
 appends to while a child rewrites the log, and drains into a pipe or a file.
 */
module AofBuffer {
  import opened Basics
  import opened Octets

  const BLOCK_SIZE: nat := 10485760

  /** Writing through the last part. */
  lemma FlattenUpdateLast(parts: seq<ByteString>, last: ByteString)
    requires parts != []
    ensures Flatten(parts) == Flatten(parts[..|parts| - 1]) + parts[|parts| - 1]
    ensures Flatten(parts[|parts| - 1 := last]) == Flatten(parts[..|parts| - 1]) + last
  {
    var n := |parts| - 1;
    assert parts == parts[..n] + [parts[n]] && parts[n := last] == parts[..n] + [last];
    FlattenSnoc(parts[..n], parts[n]);
    FlattenSnoc(parts[..n], last);
  }

  /** How many writes the pipe takes something of before it takes nothing. */
  function Willing(accepted: seq<nat>): nat {
    if accepted == [] || accepted[0] == 0 then 0 else 1 + Willing(accepted[1..])
  }

  /** One block: `used` bytes at the start of buf, and `free` bytes that may still be appended. */
  class Block {
    const buf: array<Octet>
    var used: nat
    var free: nat

    ghost predicate Valid()
      reads this
    {
      buf.Length == BLOCK_SIZE && used + free <= BLOCK_SIZE
    }

    ghost function Data(): ByteString
      requires Valid()
      reads this, buf
    {
      buf[..used]
    }

    constructor ()
      ensures Valid() && fresh(buf) && Data() == [] && free == BLOCK_SIZE
    {
      buf := new Octet[BLOCK_SIZE];
      used, free := 0, BLOCK_SIZE;
    }

    method Append(s: ByteString)
      requires Valid() && |s| <= free
      modifies this, buf
      ensures Valid() && Data() == old(Data()) + s && free == old(free) - |s|
    {
      forall i | 0 <= i < |s| {
        buf[used + i] := s[i];
      }
      used, free := used + |s|, free - |s|;
    }

    /** Drops the first n bytes and moves the others to the front; the room at the end is not given back. */
    method Drop(n: nat)
      requires Valid() && n <= used
      modifies this`used, buf
      ensures Valid() && Data() == old(Data())[n..]
    {
      forall i | 0 <= i < used - n {
        buf[i] := buf[i + n];
      }
      used := used - n;
    }
  }

  class RewriteBuffer {
    var blocks: seq<Block>

    ghost function Objects(): set<object>
      reads this
    {
      (set b: Block | b in blocks) + (set b: Block | b in blocks :: b.buf)
    }

    ghost predicate Valid()
      reads this, Objects()
    {
      && this !in Objects()
      && (forall i :: 0 <= i < |blocks| ==> blocks[i].Valid())
      && (forall i, j :: 0 <= i < j < |blocks| ==> blocks[i] != blocks[j] && blocks[i].buf != blocks[j].buf)
    }

    /** No block is begun before the ones in front of it are full. */
    ghost predicate Tight()
      requires Valid()
      reads this, Objects()
    {
      forall i :: 0 <= i < |blocks| - 1 ==> blocks[i].free == 0
    }

    ghost function Parts(): seq<ByteString>
      requires Valid()
      reads this, Objects()
    {
      seq(|blocks|, i requires 0 <= i < |blocks| reads this, Objects() requires Valid() => blocks[i].Data())
    }

    ghost function Contents(): ByteString
      requires Valid()
      reads this, Objects()
    {
      Flatten(Parts())
    }

    /** aofRewriteBufferReset. */
    constructor ()
      ensures Valid() && Contents() == [] && Objects() == {}
    {
      blocks := [];
    }

    method AppendToLast(s: ByteString)
      requires Valid() && blocks != [] && |s| <= blocks[|blocks| - 1].free
      modifies Objects()
      ensures blocks == old(blocks) && Valid() && Objects() == old(Objects()) && Contents() == old(Contents()) + s
      ensures blocks[|blocks| - 1].free == old(blocks[|blocks| - 1].free) - |s| && (old(Tight()) ==> Tight())
    {
      var n := |blocks| - 1;
      ghost var was := Parts();
      blocks[n].Append(s);
      assert Parts() == was[n := was[n] + s];
      FlattenUpdateLast(was, was[n] + s);
    }

    method AddBlock()
      requires Valid()
      modifies this
      ensures Valid() && Contents() == old(Contents())
      ensures |blocks| == old(|blocks|) + 1 && blocks[..old(|blocks|)] == old(blocks)
      ensures blocks[old(|blocks|)].free == BLOCK_SIZE
      ensures old(Tight() && (blocks == [] || blocks[|blocks| - 1].free == 0)) ==> Tight()
      ensures (forall o :: o in Objects() ==> o in old(Objects()) || fresh(o))
    {
      ghost var was := Parts();
      var block := new Block();
      blocks := blocks + [block];
      assert Parts() == was + [[]];
      FlattenSnoc(was, []);
    }

    /** aofRewriteBufferAppend. */
    method Append(s: ByteString)
      requires Valid()
      modifies this, Objects()
      ensures Valid() && (forall o :: o in Objects() ==> o in old(Objects()) || fresh(o)) && Contents() == old(Contents()) + s
      ensures old(Tight()) ==> Tight()
    {
      hide Flatten, RewriteBuffer.Contents, RewriteBuffer.Objects, RewriteBuffer.Valid, RewriteBuffer.Tight;
      var done := 0;
      while done < |s|
        invariant 0 <= done <= |s| && Valid() && (forall o :: o in Objects() ==> o in old(Objects()) || fresh(o))
        invariant Contents() == old(Contents()) + s[..done] && (old(Tight()) ==> Tight())
        decreases |s| - done, blocks == [] || blocks[|blocks| - 1].free == 0
      {
        if blocks != [] {
          var free := blocks[|blocks| - 1].free;
          var len := if free < |s| - done then free else |s| - done;
          if len > 0 {
            AppendToLast(s[done..done + len]);
            assert s[..done] + s[done..done + len] == s[..done + len];
            done := done + len;
          }
        }
        if done < |s| {
          AddBlock();
        }
      }
      assert s[..done] == s;
    }

    /**
     aofChildWriteDiffData: writes blocks to the pipe until there are none, the
     sending was stopped, or the pipe takes no more. `accepted` says how many
     bytes each successive write takes at most; the write after the last one
     takes none. The bytes sent are the front of the contents.
     */
    method SendToChild(stop: bool, accepted: seq<nat>) returns (sent: ByteString)
      requires Valid()
      modifies this, Objects()
      ensures Valid() && Objects() <= old(Objects())
      ensures old(Contents()) == sent + Contents()
      ensures stop ==> sent == []
      ensures !stop ==> Contents() == [] || |sent| >= Willing(accepted)
    {
      hide Flatten, RewriteBuffer.Contents, RewriteBuffer.Objects;
      sent := [];
      var k := 0;
      while !stop && blocks != []
        invariant Valid() && Objects() <= old(Objects()) && k <= |accepted|
        invariant old(Contents()) == sent + Contents()
        invariant (stop ==> sent == []) && |sent| >= k && Willing(accepted) == k + Willing(accepted[k..])
        decreases |blocks|, |accepted| - k
      {
        if blocks[0].used > 0 {
          if k == |accepted| || accepted[k] == 0 {
            return;
          }
          var n := if accepted[k] < blocks[0].used then accepted[k] else blocks[0].used;
          assert accepted[k..][1..] == accepted[k + 1..];
          k := k + 1;
          var piece := TakeFront(n);
          sent := sent + piece;
        }
        if blocks[0].used == 0 {
          DropFirst();
        }
      }
      NoBlocksLeft();
    }

    lemma NoBlocksLeft()
      requires Valid()
      ensures blocks == [] ==> Contents() == []
    {
    }

    /** Removes n bytes from the first block. */
    method TakeFront(n: nat) returns (piece: ByteString)
      requires Valid() && blocks != [] && n <= blocks[0].used
      modifies Objects()
      ensures blocks == old(blocks) && Valid()
      ensures old(Contents()) == piece + Contents() && |piece| == n
    {
      piece := blocks[0].buf[..n];
      ghost var was := Parts();
      blocks[0].Drop(n);
      assert Parts() == was[0 := was[0][n..]];
      assert was[0] == piece + was[0][n..];
      assert Parts()[1..] == was[1..];
    }

    /** Unlinks the first block, which is used up. */
    method DropFirst()
      requires Valid() && blocks != [] && blocks[0].used == 0
      modifies this
      ensures Valid() && Objects() <= old(Objects())
      ensures blocks == old(blocks)[1..] && Contents() == old(Contents())
    {
      ghost var was := Parts();
      blocks := blocks[1..];
      assert Parts() == was[1..];
      assert was[0] == [];
    }

    /**
     aofRewriteBufferWrite: writes all blocks to a file. `taken` says how many
     bytes each write takes at most; a short write fails.
     */
    method WriteTo(taken: seq<nat>) returns (ok: bool, written: ByteString)
      requires Valid() && |taken| == |blocks|
      ensures ok ==> written == Contents()
      ensures !ok ==> written < Contents()
      ensures ok <==> forall i :: 0 <= i < |blocks| ==> blocks[i].used <= taken[i]
    {
      hide Flatten;
      written := [];
      var i := 0;
      EmptyFlatten();
      while i < |blocks|
        invariant 0 <= i <= |blocks|
        invariant written == Flatten(Parts()[..i])
        invariant forall j :: 0 <= j < i ==> blocks[j].used <= taken[j]
      {
        FlattenStep(Parts(), i);
        if blocks[i].used > 0 {
          if taken[i] < blocks[i].used {
            written := written + blocks[i].buf[..taken[i]];
            assert blocks[i].buf[..taken[i]] < Parts()[i];
            return false, written;
          }
          written := written + blocks[i].buf[..blocks[i].used];
        }
        i := i + 1;
      }
      assert Parts()[..i] == Parts();
      return true, written;
    }
  }

  lemma EmptyFlatten()
    ensures Flatten<Octet>([]) == []
  {
  }

  lemma FlattenStep(parts: seq<ByteString>, i: nat)
    requires i < |parts|
    ensures Flatten(parts[..i + 1]) == Flatten(parts[..i]) + parts[i]
    ensures Flatten(parts[..i + 1]) <= Flatten(parts)
  {
    hide *;
    FlattenPrefix(parts, i + 1);
    FlattenSnoc(parts[..i], parts[i]);
    PrefixSnoc(parts, i);
  }

  lemma {:induction false} FlattenPrefix(parts: seq<ByteString>, n: nat)
    requires n <= |parts|
    ensures Flatten(parts[..n]) <= Flatten(parts)
  {
    if n > 0 {
      assert parts[..n][1..] == parts[1..][..n - 1];
      FlattenPrefix(parts[1..], n - 1);
    }
  }
}

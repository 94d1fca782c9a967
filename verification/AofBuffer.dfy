/** The buffer in which the parent keeps its changes while a child rewrites the file. */
module AofBuffer {
  import opened Bytes

  const AOF_RW_BUF_BLOCK_SIZE := 1024 * 1024 * 10

  function Concat(blocks: seq<seq<Byte>>): seq<Byte> {
    if blocks == [] then [] else Concat(blocks[..|blocks| - 1]) + blocks[|blocks| - 1]
  }

  class RewriteBuffer {
    var blocks: seq<seq<Byte>>

    /** Every block but the last is full. */
    ghost predicate Valid()
      reads this
    {
      && (forall i :: 0 <= i < |blocks| ==> |blocks[i]| <= AOF_RW_BUF_BLOCK_SIZE)
      && (forall i :: 0 <= i < |blocks| - 1 ==> |blocks[i]| == AOF_RW_BUF_BLOCK_SIZE)
    }

    ghost function Contents(): seq<Byte>
      reads this
    {
      Concat(blocks)
    }

    constructor ()
      ensures Valid()
      ensures Contents() == []
    {
      blocks := [];
    }

    method Reset()
      modifies this
      ensures Valid()
      ensures Contents() == []
    {
      blocks := [];
    }

    /** aofRewriteBufferAppend: fill the last block, then allocate new ones. */
    method Append(s: seq<Byte>)
      requires Valid()
      modifies this
      ensures Valid()
      ensures Contents() == old(Contents()) + s
    {
      var rest := s;
      ghost var whole := Contents() + s;
      while rest != []
        invariant Valid()
        invariant whole == Contents() + rest
        decreases |rest|, if blocks == [] || |blocks[|blocks| - 1]| == AOF_RW_BUF_BLOCK_SIZE then 1 else 0
      {
        if blocks != [] {
          var last := blocks[|blocks| - 1];
          var free := AOF_RW_BUF_BLOCK_SIZE - |last|;
          var thislen := if free < |rest| then free else |rest|;
          if thislen > 0 {
            ghost var before := blocks;
            blocks := blocks[|blocks| - 1 := last + rest[..thislen]];
            FillLast(before, blocks, last, rest, thislen);
            rest := rest[thislen..];
          }
        }
        if rest != [] {
          ghost var before := blocks;
          blocks := blocks + [[]];
          assert blocks[..|blocks| - 1] == before;
          assert Concat(before) + [] == Concat(before);
        }
      }
      assert Contents() + [] == Contents();
    }

    static lemma FillLast(before: seq<seq<Byte>>, after: seq<seq<Byte>>, last: seq<Byte>, rest: seq<Byte>, n: nat)
      requires before != [] && last == before[|before| - 1] && n <= |rest|
      requires after == before[|before| - 1 := last + rest[..n]]
      ensures Concat(before) + rest == Concat(after) + rest[n..]
    {
      var init := before[..|before| - 1];
      assert after[..|after| - 1] == init;
      assert rest == rest[..n] + rest[n..];
      assert Concat(init) + last + (rest[..n] + rest[n..]) == Concat(init) + (last + rest[..n]) + rest[n..];
    }

    /** aofRewriteBufferSize. */
    method Size() returns (n: nat)
      requires Valid()
      ensures n == |Contents()|
    {
      if blocks == [] { return 0; }
      FullBlocks(blocks, |blocks| - 1);
      n := (|blocks| - 1) * AOF_RW_BUF_BLOCK_SIZE + |blocks[|blocks| - 1]|;
    }

    static lemma {:induction false} FullBlocks(bs: seq<seq<Byte>>, k: nat)
      requires k <= |bs| && forall i :: 0 <= i < k ==> |bs[i]| == AOF_RW_BUF_BLOCK_SIZE
      ensures |Concat(bs[..k])| == k * AOF_RW_BUF_BLOCK_SIZE
    {
      if k > 0 {
        FullBlocks(bs, k - 1);
        assert bs[..k][..k - 1] == bs[..k - 1];
      }
    }

    /** Every write takes its block in full. */
    ghost predicate Accepted(accepted: nat -> int)
      reads this
    {
      forall i :: 0 <= i < |blocks| && |blocks[i]| > 0 ==> accepted(i) == |blocks[i]|
    }

    /** aofRewriteBufferWrite: one write per block; `accepted(i)` is what the i-th returns. */
    method WriteTo(file: seq<Byte>, accepted: nat -> int) returns (ok: bool, out: seq<Byte>)
      ensures ok ==> out == file + Contents()
      ensures ok <==> Accepted(accepted)
    {
      out := file;
      var i := 0;
      assert blocks[..0] == [];
      assert file + [] == file;
      while i < |blocks|
        invariant 0 <= i <= |blocks| && out == file + Concat(blocks[..i])
        invariant forall k :: 0 <= k < i && |blocks[k]| > 0 ==> accepted(k) == |blocks[k]|
      {
        assert blocks[..i + 1][..i] == blocks[..i];
        assert file + Concat(blocks[..i]) + blocks[i] == file + (Concat(blocks[..i]) + blocks[i]);
        if |blocks[i]| > 0 {
          if accepted(i) != |blocks[i]| { return false, out; }
          out := out + blocks[i];
        }
        i := i + 1;
      }
      assert blocks[..i] == blocks;
      ok := true;
    }
  }
}

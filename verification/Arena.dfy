/** The bump arena that backs every lexeme and tree node of a parse. */
module Arenas {
  const ARENA_BLOCK_SIZE: nat := 65536

  type byte = bv8

  /** One block: its payload has a fixed size, of which used bytes are handed out. */
  datatype Block = Block(used: nat, data: seq<byte>)

  /** What one call handed out: bytes off to off + len of one block. */
  datatype Region = Region(block: nat, off: nat, len: nat)

  ghost predicate Apart(a: Region, b: Region) {
    a.block != b.block || a.off + a.len <= b.off || b.off + b.len <= a.off
  }

  ghost predicate InUse(blocks: seq<Block>, r: Region) {
    r.block < |blocks| && r.off + r.len <= blocks[r.block].used
  }

  ghost predicate Filled(blocks: seq<Block>) {
    forall i :: 0 <= i < |blocks| ==> blocks[i].used <= |blocks[i].data|
  }

  /** Regions lie in the used part of their blocks and share no byte. */
  ghost predicate Laid(blocks: seq<Block>, regions: seq<Region>) {
    && (forall r :: 0 <= r < |regions| ==> InUse(blocks, regions[r]))
    && (forall r, q :: 0 <= r < q < |regions| ==> Apart(regions[r], regions[q]))
  }

  /** The string and its terminating zero stand in the region. */
  ghost predicate Holds(blocks: seq<Block>, r: Region, text: seq<byte>) {
    && r.block < |blocks| && r.off + r.len <= |blocks[r.block].data| && r.len == |text| + 1
    && blocks[r.block].data[r.off..r.off + r.len] == text + [0]
  }

  ghost predicate Kept(blocks: seq<Block>, regions: seq<Region>, texts: map<nat, seq<byte>>) {
    forall r :: r in texts ==> r < |regions| && Holds(blocks, regions[r], texts[r])
  }

  /** Blocks never shrink or move, and what is in use stays as it is. */
  ghost predicate Extends(before: seq<Block>, after: seq<Block>) {
    && |before| <= |after|
    && forall i :: 0 <= i < |before| ==>
         && before[i].used <= after[i].used && |after[i].data| == |before[i].data|
         && before[i].used <= |before[i].data|
         && after[i].data[..before[i].used] == before[i].data[..before[i].used]
  }

  lemma LaidStays(before: seq<Block>, after: seq<Block>, regions: seq<Region>, texts: map<nat, seq<byte>>)
    requires Extends(before, after) && Laid(before, regions) && Kept(before, regions, texts)
    ensures Laid(after, regions) && Kept(after, regions, texts)
  {
    forall r | r in texts ensures r < |regions| && Holds(after, regions[r], texts[r]) {
      var g := regions[r];
      assert InUse(before, g) && Holds(before, g, texts[r]);
      var n := before[g.block].used;
      assert after[g.block].data[g.off..g.off + g.len] == after[g.block].data[..n][g.off..g.off + g.len];
      assert before[g.block].data[g.off..g.off + g.len] == before[g.block].data[..n][g.off..g.off + g.len];
    }
  }

  lemma OneMoreRegion(before: seq<Block>, after: seq<Block>, regions: seq<Region>, texts: map<nat, seq<byte>>, r: Region)
    requires Extends(before, after) && Laid(before, regions) && Kept(before, regions, texts) && InUse(after, r)
    requires r.block < |before| ==> before[r.block].used <= r.off
    ensures Laid(after, regions + [r]) && Kept(after, regions + [r], texts)
  {
    hide Holds;
    LaidStays(before, after, regions, texts);
    forall q | 0 <= q < |regions| ensures Apart(regions[q], r) {
      assert InUse(before, regions[q]);
    }
  }

  class Arena {
    var blocks: seq<Block>                           // the source links them newest first; the last is its head
    ghost var regions: seq<Region>                   // everything handed out, in order
    ghost var texts: map<nat, seq<byte>>             // the strings stored, by the number of their region

    ghost predicate Valid()
      reads this
    {
      Filled(blocks) && Laid(blocks, regions) && Kept(blocks, regions, texts)
    }

    constructor ()
      ensures Valid() && blocks == [] && regions == [] && texts == map[]
    {
      blocks, regions, texts := [], [], map[];
    }

    /** A fresh block in front, large enough for the request. */
    method Grow(need: nat)
      requires Valid()
      modifies this`blocks
      ensures Valid() && Extends(old(blocks), blocks)
      ensures |blocks| == |old(blocks)| + 1 && blocks[..|blocks| - 1] == old(blocks)
      ensures blocks[|blocks| - 1].used == 0
      ensures |blocks[|blocks| - 1].data| == if need > 65536 then need else 65536
    {
      var cap := if need > ARENA_BLOCK_SIZE then need else ARENA_BLOCK_SIZE;
      var next := blocks + [Block(0, seq(cap, _ => 0))];
      assert Extends(blocks, next);
      LaidStays(blocks, next, regions, texts);
      blocks := next;
    }

    /** Space for a structure: an offset that is a multiple of 8, in the newest block or a new one. */
    method ArenaAlloc(n: nat) returns (r: Region)
      requires Valid()
      modifies this
      ensures Valid() && regions == old(regions) + [r] && texts == old(texts)
      ensures r.len == n && r.off % 8 == 0 && r.block == |blocks| - 1
      ensures |old(blocks)| <= |blocks| <= |old(blocks)| + 1
      ensures |blocks| > |old(blocks)| ==>
                r.off == 0 && (old(blocks) == [] ||
                  var b := old(blocks)[|old(blocks)| - 1]; (b.used + 7) / 8 * 8 + n > |b.data|)
      ensures Extends(old(blocks), blocks)
    {
      hide Laid, Kept;
      var off := 0;
      if |blocks| > 0 {
        off := (blocks[|blocks| - 1].used + 7) / 8 * 8;
      }
      if |blocks| == 0 || off + n > |blocks[|blocks| - 1].data| {
        Grow(n);
        off := 0;
      }
      var b := |blocks| - 1;
      r := Region(b, off, n);
      var next := blocks[b := Block(off + n, blocks[b].data)];
      OneMoreRegion(blocks, next, regions, texts, r);
      blocks := next;
      regions := regions + [r];
    }

    /** A copy of the string, right behind what is in use, with its terminating zero. */
    method ArenaStrndup(s: seq<byte>) returns (r: Region)
      requires Valid()
      modifies this
      ensures Valid() && regions == old(regions) + [r] && texts == old(texts)[|old(regions)| := s]
      ensures r.len == |s| + 1 && r.block == |blocks| - 1
      ensures |old(blocks)| <= |blocks| <= |old(blocks)| + 1
      ensures |blocks| > |old(blocks)| ==>
                r.off == 0 && (old(blocks) == [] || var b := old(blocks)[|old(blocks)| - 1]; b.used + |s| + 1 > |b.data|)
      ensures Extends(old(blocks), blocks)
    {
      hide Laid, Kept;
      var need := |s| + 1;
      if |blocks| == 0 || |blocks[|blocks| - 1].data| - blocks[|blocks| - 1].used < need {
        Grow(need);
      }
      var b := |blocks| - 1;
      var off, data := blocks[b].used, blocks[b].data;
      r := Region(b, off, need);
      var next := blocks[b := Block(off + need, data[..off] + s + [0] + data[off + need..])];
      assert next[b].data[off..off + need] == s + [0];
      assert next[b].data[..off] == data[..off];
      OneMoreRegion(blocks, next, regions, texts, r);
      OneMoreText(next, regions + [r], texts, s);
      texts := texts[|regions| := s];
      blocks := next;
      regions := regions + [r];
    }
  }

  lemma OneMoreText(blocks: seq<Block>, regions: seq<Region>, texts: map<nat, seq<byte>>, s: seq<byte>)
    requires regions != [] && Kept(blocks, regions, texts) && Holds(blocks, regions[|regions| - 1], s)
    ensures Kept(blocks, regions, texts[|regions| - 1 := s])
  {}

  datatype Request = Alloc(n: nat) | Strndup(s: seq<byte>)

  /**
   * Any sequence of requests to a new arena: every region lies inside its block, no two share a byte,
   * structures are aligned, and at the end every string is what was stored.
   */
  method Serve(requests: seq<Request>) returns (regions: seq<Region>, blocks: seq<Block>)
    ensures |regions| == |requests|
    ensures forall k :: 0 <= k < |regions| ==>
              regions[k].block < |blocks| && regions[k].off + regions[k].len <= |blocks[regions[k].block].data|
    ensures forall j, k :: 0 <= j < k < |regions| ==> Apart(regions[j], regions[k])
    ensures forall k :: 0 <= k < |requests| && requests[k].Alloc? ==>
              regions[k].len == requests[k].n && regions[k].off % 8 == 0
    ensures forall k :: 0 <= k < |requests| && requests[k].Strndup? ==> Holds(blocks, regions[k], requests[k].s)
  {
    hide Holds;
    var a := new Arena();
    regions := [];
    for k := 0 to |requests|
      invariant a.Valid() && fresh(a) && regions == a.regions && |regions| == k
      invariant forall i :: 0 <= i < k && requests[i].Alloc? ==> regions[i].len == requests[i].n && regions[i].off % 8 == 0
      invariant forall i :: 0 <= i < k && requests[i].Strndup? ==> i in a.texts && a.texts[i] == requests[i].s
    {
      var r;
      match requests[k] {
        case Alloc(n) => r := a.ArenaAlloc(n);
        case Strndup(s) => r := a.ArenaStrndup(s);
      }
      regions := regions + [r];
    }
    blocks := a.blocks;
    forall k | 0 <= k < |regions|
      ensures regions[k].block < |blocks| && regions[k].off + regions[k].len <= |blocks[regions[k].block].data|
    {
      assert InUse(blocks, regions[k]);
    }
  }
}

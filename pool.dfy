/** The fixed-block pool allocator (tregex.c:13-46): a bitmap of 16 words of
    64 bits covers 1024 blocks of `PoolBlockSize` bytes; a set bit marks a
    free block. Blocks are identified by index instead of by address. */
module BlockPool {
  import opened Layout

  const WordCount: int := 16
  const WordBits: int := 64
  const BlockCount: int := WordCount * WordBits

  /** A 64-bit bitmap word, bit `k` as element `k`. */
  type Word = w: seq<bool> | |w| == WordBits witness seq(64, _ => false)

  const Zero: Word := seq(64, _ => false)
  const AllOnes: Word := seq(64, _ => true)

  /** Index of the lowest set bit of a word (the `ctzll` intrinsic), scanning
      upwards from bit `k`. */
  function LowestSetBitFrom(w: Word, k: nat): (r: nat)
    requires k < WordBits && exists j :: k <= j < WordBits && w[j]
    ensures k <= r < WordBits && w[r]
    ensures forall j :: k <= j < r ==> !w[j]
    decreases WordBits - k
  {
    if w[k] then k else LowestSetBitFrom(w, k + 1)
  }

  /** `ctzll`: defined for a nonzero word only, like the intrinsic. */
  function CountTrailingZeros(w: Word): (r: nat)
    requires w != Zero
    ensures r < WordBits && w[r]
    ensures forall j :: 0 <= j < r ==> !w[j]
  {
    LowestSetBitFrom(w, 0)
  }

  /** The lowest-index free block at or above `k` of a free map, if any. */
  function LowestFreeFrom(free: seq<bool>, k: nat): (r: Option<nat>)
    requires k <= |free|
    ensures r.Some? ==> k <= r.value < |free| && free[r.value]
    ensures r.Some? ==> forall j :: k <= j < r.value ==> !free[j]
    ensures r.None? ==> forall j :: k <= j < |free| ==> !free[j]
    decreases |free| - k
  {
    if k == |free| then None
    else if free[k] then Some(k)
    else LowestFreeFrom(free, k + 1)
  }

  /** The block `Alloc` hands out: the lowest-index free one. */
  function LowestFree(free: seq<bool>): (r: Option<nat>)
    ensures r.Some? ==> r.value < |free| && free[r.value]
    ensures r.Some? ==> forall j :: 0 <= j < r.value ==> !free[j]
    ensures r.None? ==> forall j :: 0 <= j < |free| ==> !free[j]
  {
    LowestFreeFrom(free, 0)
  }

  /** `free` is the bitmap `words` read block by block: block `b` is free when
      bit `b % 64` of word `b / 64` is set. */
  ghost predicate Describes(words: seq<Word>, free: seq<bool>)
  {
    && |words| == WordCount
    && |free| == BlockCount
    && forall b :: 0 <= b < BlockCount ==> free[b] == words[b / WordBits][b % WordBits]
  }

  /** Clearing block `b`'s bit (`w &= ~(1ull << k)`) marks exactly block `b` used. */
  lemma DescribesClear(words: seq<Word>, free: seq<bool>, b: nat)
    requires Describes(words, free) && b < BlockCount
    ensures Describes(words[b / WordBits := words[b / WordBits][b % WordBits := false]], free[b := false])
  {
    var words' := words[b / WordBits := words[b / WordBits][b % WordBits := false]];
    forall c | 0 <= c < BlockCount
      ensures free[b := false][c] == words'[c / WordBits][c % WordBits]
    {
      if c / WordBits == b / WordBits && c != b {
        assert c % WordBits != b % WordBits;
      }
    }
  }

  /** Setting block `b`'s bit (`w |= 1ull << k`) marks exactly block `b` free. */
  lemma DescribesSet(words: seq<Word>, free: seq<bool>, b: nat)
    requires Describes(words, free) && b < BlockCount
    ensures Describes(words[b / WordBits := words[b / WordBits][b % WordBits := true]], free[b := true])
  {
    var words' := words[b / WordBits := words[b / WordBits][b % WordBits := true]];
    forall c | 0 <= c < BlockCount
      ensures free[b := true][c] == words'[c / WordBits][c % WordBits]
    {
      if c / WordBits == b / WordBits && c != b {
        assert c % WordBits != b % WordBits;
      }
    }
  }

  /** A zero word describes 64 used blocks. */
  lemma ZeroWordAllUsed(words: seq<Word>, free: seq<bool>, i: nat)
    requires Describes(words, free) && i < WordCount && words[i] == Zero
    ensures forall c :: i * WordBits <= c < (i + 1) * WordBits ==> !free[c]
  {
    forall c | i * WordBits <= c < (i + 1) * WordBits
      ensures !free[c]
    {
      assert c / WordBits == i;
    }
  }

  /** Block `i * 64 + k` is bit `k` of word `i`. */
  lemma BlockOfBit(i: nat, k: nat)
    requires k < WordBits
    ensures (i * WordBits + k) / WordBits == i && (i * WordBits + k) % WordBits == k
  {
  }

  /** The allocator state `tregex_pool_ctx` (tregex.h:134-137): the bitmap and
      the raw memory it describes. `Free` is the bitmap read block by block. */
  class Pool {
    const bitmap: array<Word>
    const raw: array<Block>
    ghost var Free: seq<bool>

    ghost predicate Valid()
      reads this, bitmap
    {
      && bitmap.Length == WordCount
      && raw.Length == BlockCount
      && Describes(bitmap[..], Free)
    }

    /** All blocks are free after this. */
    ghost predicate AllFree()
      reads this
    {
      |Free| == BlockCount && forall b :: 0 <= b < BlockCount ==> Free[b]
    }

    /** `tregex_pool_create` (tregex.c:13-20): every block starts free. */
    constructor ()
      ensures Valid() && AllFree()
      ensures fresh(bitmap) && fresh(raw)
    {
      bitmap := new Word[WordCount](_ => AllOnes);
      raw := new Block[BlockCount](_ => Raw);
      Free := seq(BlockCount, _ => true);
    }

    /** `tregex_pool_clean` (tregex.c:22-24): marks every block free, whatever
        was allocated before; the raw memory is left as it is. */
    method Clean()
      requires Valid()
      modifies this, bitmap
      ensures Valid() && AllFree()
      ensures raw[..] == old(raw[..])
    {
      forall i | 0 <= i < WordCount {
        bitmap[i] := AllOnes;
      }
      Free := seq(BlockCount, _ => true);
    }

    /** `tregex_pool_alloc` (tregex.c:31-40): the first nonzero word, its
        lowest set bit, cleared. `ok` is false where the source exits with
        status 2, when no block is free. */
    method Alloc() returns (ok: bool, b: int)
      requires Valid()
      modifies this, bitmap
      ensures Valid()
      ensures ok == LowestFree(old(Free)).Some?
      ensures ok ==> b == LowestFree(old(Free)).value && Free == old(Free)[b := false]
      ensures !ok ==> Free == old(Free)
    {
      var i := 0;
      while i < WordCount
        invariant 0 <= i <= WordCount
        invariant Valid() && Free == old(Free)
        invariant forall j :: 0 <= j < i * WordBits ==> !Free[j]
      {
        if bitmap[i] != Zero {
          var offset := CountTrailingZeros(bitmap[i]);
          b := offset + i * WordBits;
          BlockOfBit(i, offset);
          DescribesClear(bitmap[..], Free, b);
          bitmap[i] := bitmap[i][offset := false];
          Free := Free[b := false];
          ok := true;
          return;
        }
        ZeroWordAllUsed(bitmap[..], Free, i);
        i := i + 1;
      }
      ok, b := false, -1;
    }

    /** `tregex_pool_free` (tregex.c:42-46): sets the block's bit again. */
    method Release(b: int)
      requires Valid() && 0 <= b < BlockCount
      modifies this, bitmap
      ensures Valid()
      ensures Free == old(Free)[b := true]
    {
      DescribesSet(bitmap[..], Free, b);
      bitmap[b / WordBits] := bitmap[b / WordBits][b % WordBits := true];
      Free := Free[b := true];
    }
  }

  /** Freeing the block `Alloc` just handed out restores the free map. */
  lemma ReleaseUndoesAlloc(free: seq<bool>)
    requires LowestFree(free).Some?
    ensures var b := LowestFree(free).value; free[b := false][b := true] == free
  {
  }
}

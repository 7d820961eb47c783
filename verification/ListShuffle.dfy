/** The whole-list shuffles: a list permuted in place, pair by pair, with the source
    bytes read through three different caches. All of them are the same permutation. */
module ListShuffle {
  import opened DivMod
  import opened Words
  import opened SwapOrNot

  /** A block number no position has: `usize::MAX`. */
  const NO_BLOCK: nat := USIZE - 1

  /** Source bytes of one round, one block of 256 positions at a time. */
  class Source {
    const h: Seed
    const round: nat
    var block: nat
    var bytes: Bytes32

    ghost predicate Valid()
      reads this
    {
      block != NO_BLOCK ==> bytes == h.block(round, block % U32)
    }

    constructor (h: Seed, round: nat)
      ensures Valid() && this.h == h && this.round == round
    {
      this.h, this.round := h, round;
      block, bytes := NO_BLOCK, seq(32, _ => seq(8, _ => false));
    }

    method Refresh(position: nat)
      requires Valid() && position < USIZE
      modifies this
      ensures Valid() && bytes == h.block(round, (position / 256) % U32)
    {
      if position / 256 != block {
        bytes := h.block(round, (position / 256) % U32);
        block := position / 256;
      }
    }

    /** The byte a position's swap bit is in. */
    method ByteOf(position: nat) returns (b: Byte)
      requires Valid() && position < USIZE
      modifies this
      ensures Valid() && b == SourceByte(h, round, position)
    {
      Refresh(position);
      b := bytes[(position % 256) / 8];
    }

    /** The 64 swap bits of an aligned run of positions, ascending. */
    method WordOf(base: nat) returns (w: Word)
      requires Valid() && base < USIZE && base % 64 == 0
      modifies this
      ensures Valid() && forall t: nat :: t < 64 ==> w[t] == SwapBit(h, round, base + t)
    {
      Refresh(base);
      var b := (base % 256) / 8;
      w := LeWord(bytes[b..b + 8]);
      forall t: nat | t < 64 ensures w[t] == SwapBit(h, round, base + t) {
        SameWord(base, t);
      }
    }
  }

  /** A byte-aligned run of eight positions shares a source byte. */
  lemma SameByte(h: Seed, r: nat, p: nat, t: nat)
    requires t <= p % 8
    ensures SourceByte(h, r, p - t) == SourceByte(h, r, p)
    ensures (p - t) % 8 == p % 8 - t
  {
    ByteOfBlock(p);
    ByteOfBlock(p - t);
    assert (p - t) / 8 == p / 8;
  }

  lemma ByteOfBlock(p: nat)
    ensures p / 256 == (p / 8) / 32 && (p % 256) / 8 == (p / 8) % 32
  {
  }

  lemma InBlock(block: nat, at: nat)
    requires at < 256
    ensures (256 * block + at) / 256 == block && (256 * block + at) % 256 == at && (256 * block + at) % 8 == at % 8
  {
    DivModUnique(256 * block + at, 256, block, at);
    DivModUnique(256 * block + at, 8, 32 * block + at / 8, at % 8);
  }

  /** A word-aligned run of sixty-four shares a block, eight consecutive bytes of it. */
  lemma SameWord(base: nat, t: nat)
    requires base % 64 == 0 && t < 64
    ensures (base + t) / 256 == base / 256
    ensures ((base + t) % 256) / 8 == (base % 256) / 8 + t / 8
    ensures (base + t) % 8 == t % 8
    ensures (base % 256) / 8 + 8 <= 32
  {
    var q := base / 64;
    var c, d := q / 4, q % 4;
    assert base == 256 * c + 64 * d;
    InBlock(c, 64 * d);
    InBlock(c, 64 * d + t);
    DivModUnique(64 * d + t, 8, 8 * d + t / 8, t % 8);
    DivModUnique(64 * d, 8, 8 * d, 0);
  }

  /** The conditional exchange of pair `k`, which every list form performs. */
  method SwapPair<T>(list: array<T>, h: Seed, r: nat, run: Run, k: nat, bit: bool, ghost s: seq<T>)
    requires Fits(run, list.Length) && |s| == list.Length && k < run.count
    requires list[..] == RunList(h, r, run, k, s) && bit == SwapBit(h, r, run.j0 - k)
    modifies list
    ensures list[..] == RunList(h, r, run, k + 1, s)
  {
    hide RunList, SwapBit;
    RunStep(h, r, run, k, s);
    var i, j := run.i0 + k, run.j0 - k;
    if bit {
      var a, b := list[i], list[j];
      list[i] := b;
      list[j] := a;
    }
  }

  /** One run with the source byte cached: refreshed when the descending side enters a
      byte, and hashed again when it enters a block. */
  method RunCached<T>(list: array<T>, h: Seed, r: nat, run: Run)
    requires Fits(run, list.Length)
    modifies list
    ensures list[..] == RunList(h, r, run, run.count, old(list[..]))
  {
    ghost var s := list[..];
    var source := h.block(r, (run.j0 / 256) % U32);
    var byte := source[(run.j0 % 256) / 8];
    ghost var at := run.j0;
    RunStart(h, r, run, s);
    for k := 0 to run.count
      invariant list[..] == RunList(h, r, run, k, s)
      invariant at == if k == 0 then run.j0 else run.j0 - (k - 1)
      invariant source == h.block(r, (at / 256) % U32) && byte == source[(at % 256) / 8]
    {
      var j := run.j0 - k;
      if j % 256 == 255 {
        source := h.block(r, (j / 256) % U32);
      }
      if j % 8 == 7 {
        byte := source[(j % 256) / 8];
      }
      CacheFollows(at, j);
      at := j;
      SwapPair(list, h, r, run, k, byte[j % 8], s);
    }
  }

  /** The position just below a cached one needs no refresh unless it starts a byte or a block. */
  lemma CacheFollows(at: nat, j: nat)
    requires j == at || j + 1 == at
    ensures j % 256 != 255 ==> j / 256 == at / 256
    ensures j % 8 != 7 ==> (j % 256) / 8 == (at % 256) / 8
    ensures j % 256 == 255 ==> j % 8 == 7
  {
  }

  lemma RunStart<T>(h: Seed, r: nat, run: Run, s: seq<T>)
    requires Fits(run, |s|)
    ensures RunList(h, r, run, 0, s) == s
  {
  }

  /** One run a source byte at a time: up to eight pairs share the byte their descending
      side lies in, and the block is hashed again only at the start of such a stretch. */
  method RunByBytes<T>(list: array<T>, h: Seed, r: nat, run: Run)
    requires Fits(run, list.Length)
    modifies list
    ensures list[..] == RunList(h, r, run, run.count, old(list[..]))
  {
    ghost var s := list[..];
    var source := h.block(r, (run.j0 / 256) % U32);
    RunStart(h, r, run, s);
    var k := 0;
    while k < run.count
      invariant k <= run.count && list[..] == RunList(h, r, run, k, s)
      invariant k < run.count ==>
        (run.j0 - k) % 256 == 255 || source == h.block(r, ((run.j0 - k) / 256) % U32)
    {
      var j := run.j0 - k;
      if j % 256 == 255 {
        source := h.block(r, (j / 256) % U32);
      }
      var byte := source[(j % 256) / 8];
      var stretch := if j % 8 + 1 < run.count - k then j % 8 + 1 else run.count - k;
      SwapStretch(list, h, r, run, k, stretch, byte, s);
      BlockFollows(j, stretch);
      k := k + stretch;
    }
  }

  lemma BlockFollows(j: nat, stretch: nat)
    requires 0 < stretch <= j % 8 + 1 && stretch <= j
    ensures (j - stretch) % 256 == 255 || (j - stretch) / 256 == j / 256
  {
  }

  /** Up to eight pairs of one source byte. */
  method SwapStretch<T>(list: array<T>, h: Seed, r: nat, run: Run, k: nat, stretch: nat, byte: Byte, ghost s: seq<T>)
    requires Fits(run, list.Length) && |s| == list.Length
    requires k + stretch <= run.count && stretch <= (run.j0 - k) % 8 + 1
    requires byte == SourceByte(h, r, run.j0 - k)
    requires list[..] == RunList(h, r, run, k, s)
    modifies list
    ensures list[..] == RunList(h, r, run, k + stretch, s)
  {
    var j := run.j0 - k;
    for t := 0 to stretch
      invariant list[..] == RunList(h, r, run, k + t, s)
    {
      SameByte(h, r, j, t);
      SwapPair(list, h, r, run, k + t, byte[(j - t) % 8], s);
    }
  }

  /** The same stretches, with the byte fetched through `Source`. */
  method RunBySource<T>(list: array<T>, src: Source, run: Run)
    requires Fits(run, list.Length) && src.Valid() && list.Length <= USIZE
    modifies list, src
    ensures src.Valid()
    ensures list[..] == RunList(src.h, src.round, run, run.count, old(list[..]))
  {
    ghost var s := list[..];
    RunStart(src.h, src.round, run, s);
    var k := 0;
    while k < run.count
      invariant k <= run.count && src.Valid()
      invariant list[..] == RunList(src.h, src.round, run, k, s)
    {
      var j := run.j0 - k;
      var byte := src.ByteOf(j);
      var stretch := if j % 8 + 1 < run.count - k then j % 8 + 1 else run.count - k;
      SwapStretch(list, src.h, src.round, run, k, stretch, byte, s);
      k := k + stretch;
    }
  }

  // ---- the whole shuffles --------------------------------------------------------

  /** Lighthouse's `shuffle_list`, in either direction. `rounds` is at least one: the
      source subtracts one from it before the first round. */
  method ShuffleList<T>(input: array<T>, rounds: nat, h: Seed, forwards: bool)
    requires rounds > 0
    modifies input
    ensures forwards ==> input[..] == ShuffledForwards(h, rounds, old(input[..]))
    ensures !forwards ==> input[..] == ShuffledBackwards(h, rounds, old(input[..]))
  {
    ghost var s := input[..];
    if input.Length == 0 {
      EmptyShuffles(h, rounds, s);
      return;
    }
    if forwards {
      for r := 0 to rounds
        invariant input[..] == ShuffledForwards(h, r, s)
      {
        RoundCached(input, h, r);
      }
    } else {
      for r := rounds downto 0
        invariant ShuffledBackwards(h, r, input[..]) == ShuffledBackwards(h, rounds, s)
      {
        RoundCached(input, h, r);
      }
    }
  }

  method RoundCached<T>(input: array<T>, h: Seed, r: nat)
    requires input.Length > 0
    modifies input
    ensures input[..] == RoundList(h, r, old(input[..]))
  {
    var pivot := Pivot(h, input.Length, r);
    RunsMakeRound(h, r, input[..]);
    RunCached(input, h, r, LowerRun(pivot));
    RunCached(input, h, r, UpperRun(pivot, input.Length));
  }

  lemma {:induction false} EmptyShuffles<T>(h: Seed, rounds: nat, s: seq<T>)
    requires |s| <= 1
    ensures ShuffledForwards(h, rounds, s) == s == ShuffledBackwards(h, rounds, s)
  {
    if rounds > 0 {
      assert RoundList(h, rounds - 1, s) == s;
      EmptyShuffles(h, rounds - 1, s);
    }
  }

  /** `shuffle_list_fast`: the same list, a source byte at a time. */
  method ShuffleListFast<T>(input: array<T>, rounds: nat, h: Seed)
    modifies input
    ensures input[..] == ShuffledForwards(h, rounds, old(input[..]))
  {
    ghost var s := input[..];
    if input.Length <= 1 {
      EmptyShuffles(h, rounds, s);
      return;
    }
    for r := 0 to rounds
      invariant input[..] == ShuffledForwards(h, r, s)
    {
      var pivot := Pivot(h, input.Length, r);
      RunsMakeRound(h, r, input[..]);
      RunByBytes(input, h, r, LowerRun(pivot));
      RunByBytes(input, h, r, UpperRun(pivot, input.Length));
    }
  }

  /** `whole_set_shuffle!`: the same list again, over `u32` positions or `u8` labels. */
  method WholeSetShuffle<T>(list: array<T>, h: Seed, rounds: nat)
    requires list.Length <= USIZE
    modifies list
    ensures list[..] == ShuffledForwards(h, rounds, old(list[..]))
  {
    ghost var s := list[..];
    if list.Length <= 1 {
      EmptyShuffles(h, rounds, s);
      return;
    }
    for r := 0 to rounds
      invariant list[..] == ShuffledForwards(h, r, s)
    {
      var src := new Source(h, r);
      var pivot := Pivot(h, list.Length, r);
      RunsMakeRound(h, r, list[..]);
      RunBySource(list, src, LowerRun(pivot));
      RunBySource(list, src, UpperRun(pivot, list.Length));
    }
  }

  /** The order committees are cut from, and its inverse: the list shuffled backwards
      reads `input[compute_shuffled_index(i)]`, the list shuffled forwards undoes it, and
      both are rearrangements of the input. */
  lemma ShuffleMeetsSpecification<T>(h: Seed, rounds: nat, s: seq<T>, i: nat)
    requires i < |s|
    ensures ShuffledBackwards(h, rounds, s)[i] == s[ShuffledIndex(h, |s|, rounds, i)]
    ensures ShuffledForwards(h, rounds, s)[ShuffledIndex(h, |s|, rounds, i)] == s[i]
    ensures ShuffledForwards(h, rounds, ShuffledBackwards(h, rounds, s)) == s
  {
    BackwardsReadsShuffle(h, rounds, s, i);
    ForwardsReadsPosition(h, rounds, s, ShuffledIndex(h, |s|, rounds, i));
    PositionInvertsShuffle(h, |s|, rounds, i);
    DirectionsUndoEachOther(h, rounds, s);
  }
}

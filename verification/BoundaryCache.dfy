/** The cache over those files: two boundaries in memory, every one it was given on disk. */
module BoundaryCache {
  import opened Wrappers
  import opened Bytes
  import opened BoundaryFile

  /** How many boundaries are kept in memory. */
  const HOT: nat := 2

  /** Whether some boundary in the queue is for `slot`. */
  predicate Holding(hot: seq<Inputs>, slot: U64) {
    exists k :: 0 <= k < |hot| && hot[k].slot == slot
  }

  function Find(hot: seq<Inputs>, slot: U64): (r: Option<Inputs>)
    ensures r.Some? <==> Holding(hot, slot)
    ensures r.Some? ==> r.value in hot && r.value.slot == slot
  {
    if hot == [] then None
    else if hot[0].slot == slot then Some(hot[0])
    else
      assert forall k :: 0 < k < |hot| ==> hot[k] == hot[1..][k - 1];
      Find(hot[1..], slot)
  }

  /** No two boundaries in the queue are for one slot. */
  ghost predicate OneASlot(hot: seq<Inputs>) {
    forall i, j :: 0 <= i < j < |hot| ==> hot[i].slot != hot[j].slot
  }

  lemma HeadAndTail(hot: seq<Inputs>, slot: U64)
    requires hot != []
    ensures hot == [hot[0]] + hot[1..]
    ensures forall x :: x in hot <==> x == hot[0] || x in hot[1..]
    ensures Holding(hot, slot) <==> hot[0].slot == slot || Holding(hot[1..], slot)
  {
    assert hot == [hot[0]] + hot[1..];
    if Holding(hot, slot) && hot[0].slot != slot {
      var k :| 0 <= k < |hot| && hot[k].slot == slot;
      assert hot[1..][k - 1] == hot[k];
    }
  }

  lemma OneASlotCons(x: Inputs, hot: seq<Inputs>)
    ensures OneASlot([x] + hot) <==> OneASlot(hot) && forall y :: y in hot ==> y.slot != x.slot
  {
    if OneASlot([x] + hot) {
      forall i, j | 0 <= i < j < |hot| ensures hot[i].slot != hot[j].slot {
        assert ([x] + hot)[i + 1].slot != ([x] + hot)[j + 1].slot;
      }
      forall i | 0 <= i < |hot| ensures hot[i].slot != x.slot {
        assert ([x] + hot)[0].slot != ([x] + hot)[i + 1].slot;
      }
    }
  }

  /** `retain`: the boundaries for any other slot, in order. */
  function Without(hot: seq<Inputs>, slot: U64): (r: seq<Inputs>)
    ensures forall x :: x in r <==> x in hot && x.slot != slot
    ensures |r| <= |hot| && (Holding(hot, slot) ==> |r| < |hot|)
    ensures OneASlot(hot) ==> OneASlot(r)
  {
    if hot == [] then []
    else
      HeadAndTail(hot, slot);
      OneASlotCons(hot[0], hot[1..]);
      OneASlotCons(hot[0], Without(hot[1..], slot));
      if hot[0].slot == slot then Without(hot[1..], slot) else [hot[0]] + Without(hot[1..], slot)
  }

  function NotBefore(hot: seq<Inputs>, slot: U64): (r: seq<Inputs>)
    ensures forall x :: x in r <==> x in hot && x.slot >= slot
    ensures |r| <= |hot|
    ensures OneASlot(hot) ==> OneASlot(r)
  {
    if hot == [] then []
    else
      OneASlotCons(hot[0], hot[1..]);
      OneASlotCons(hot[0], NotBefore(hot[1..], slot));
      assert hot == [hot[0]] + hot[1..];
      if hot[0].slot >= slot then [hot[0]] + NotBefore(hot[1..], slot) else NotBefore(hot[1..], slot)
  }

  /** A file is named for the slot it decodes to. */
  ghost predicate Named(files: map<U64, seq<Byte>>, sha: Checksum) {
    forall s :: s in files && Decode(files[s], sha).Some? ==> Decode(files[s], sha).value.slot == s
  }

  ghost predicate OnDisk(x: Inputs, files: map<U64, seq<Byte>>, sha: Checksum) {
    x.slot in files && Decode(files[x.slot], sha) == Some(x)
  }

  /** Memory repeats what is on disk. */
  ghost predicate Backed(hot: seq<Inputs>, files: map<U64, seq<Byte>>, sha: Checksum) {
    forall x :: x in hot ==> OnDisk(x, files, sha)
  }

  /** The plain map a directory stands for: every boundary whose file can be read. */
  ghost function Readable(files: map<U64, seq<Byte>>, sha: Checksum): map<U64, Inputs> {
    map s | s in files && Decode(files[s], sha).Some? :: Decode(files[s], sha).value
  }

  lemma DamagedIsUnread(files: map<U64, seq<Byte>>, slot: U64, sha: Checksum)
    requires slot in files && Decode(files[slot], sha).None?
    ensures Readable(files - {slot}, sha) == Readable(files, sha)
  {
  }

  lemma WrittenIsRead(files: map<U64, seq<Byte>>, x: Inputs, sha: Checksum)
    requires Sized(x)
    ensures OnDisk(x, files[x.slot := Encode(x, sha)], sha)
    ensures Readable(files[x.slot := Encode(x, sha)], sha) == Readable(files, sha)[x.slot := x]
  {
    DecodeInvertsEncode(x, sha);
  }

  class Cache {
    const sha: Checksum
    var hot: seq<Inputs>
    /** The directory beside the store: file contents by the slot in the name. */
    var files: map<U64, seq<Byte>>

    ghost predicate Valid()
      reads this
    {
      |hot| <= HOT && OneASlot(hot) && Named(files, sha) && Backed(hot, files, sha)
    }

    /** The plain map the cache stands for. */
    ghost function Contents(): map<U64, Inputs>
      reads this
    {
      Readable(files, sha)
    }

    /** A run that starts beside an existing store starts from its files. */
    constructor (checksum: Checksum, existing: map<U64, seq<Byte>>)
      requires Named(existing, checksum)
      ensures Valid() && sha == checksum && files == existing && hot == []
    {
      sha, hot, files := checksum, [], existing;
    }

    /** Answers for a damaged file too, since nothing is decoded. */
    method Holds(slot: U64) returns (r: bool)
      requires Valid()
      ensures r <==> slot in files
      ensures slot in Contents() ==> r
    {
      r := Holding(hot, slot) || slot in files;
      assert forall k :: 0 <= k < |hot| ==> OnDisk(hot[k], files, sha);
    }

    /** The newest goes to the back; the oldest falls off the front. */
    method Warm(inputs: Inputs)
      requires OneASlot(hot)
      modifies this`hot
      ensures 1 <= |hot| <= 2 && hot[|hot| - 1] == inputs
      ensures forall i, j :: 0 <= i < j < |hot| ==> hot[i].slot != hot[j].slot
      ensures forall x :: x in hot ==> x == inputs || (x in old(hot) && x.slot != inputs.slot)
    {
      hot := Without(hot, inputs.slot);
      hot := hot + [inputs];
      while |hot| > HOT
        invariant 1 <= |hot| && hot[|hot| - 1] == inputs && OneASlot(hot)
        invariant forall x :: x in hot ==> x == inputs || (x in old(hot) && x.slot != inputs.slot)
        decreases |hot|
      {
        hot := hot[1..];
      }
    }

    /** Looks the slot up; a file that does not decode is deleted, which no lookup can tell. */
    method Get(slot: U64) returns (r: Option<Inputs>)
      requires Valid()
      modifies this
      ensures Valid() && Contents() == old(Contents())
      ensures r == if slot in old(Contents()) then Some(old(Contents())[slot]) else None
    {
      var held := Find(hot, slot);
      if held.Some? {
        assert OnDisk(held.value, files, sha);
        return held;
      }
      if slot !in files { return None; }
      var decoded := Decode(files[slot], sha);
      if decoded.Some? {
        Warm(decoded.value);
        assert OnDisk(decoded.value, files, sha);
      } else {
        DamagedIsUnread(files, slot, sha);
        files := files - {slot};
      }
      return decoded;
    }

    /** Writes the boundary and warms it; later lookups answer with it. */
    method Put(inputs: Inputs)
      requires Valid() && Sized(inputs)
      modifies this
      ensures Valid() && Contents() == old(Contents())[inputs.slot := inputs]
    {
      WrittenIsRead(files, inputs, sha);
      files := files[inputs.slot := Encode(inputs, sha)];
      Warm(inputs);
      forall x | x in hot ensures OnDisk(x, files, sha) {
        if x != inputs { assert OnDisk(x, old(files), sha); }
      }
    }

    /** Drops every boundary before `slot`, in memory and on disk. */
    method ForgetBefore(slot: U64)
      requires Valid()
      modifies this
      ensures Valid() && Contents() == map s | s in old(Contents()) && s >= slot :: old(Contents())[s]
    {
      hide OneASlot, NotBefore, Decode;
      hot := NotBefore(hot, slot);
      files := map s | s in files && s >= slot :: files[s];
      assert forall x :: x in hot ==> OnDisk(x, old(files), sha);
    }
  }
}

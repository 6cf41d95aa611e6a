/**
 * The memory component (`gs::Memory`): a target that serves reads, writes,
 * debug accesses and direct-memory requests out of a lazily allocated block
 * tree (module SubBlocks) whose root covers `[0, size)`.
 */
module MemoryModel {
  import opened Wrappers
  import opened Tlm
  import opened SubBlocks

  /**
   * The memory's configuration as the configuration broker resolves it:
   * `read_only` (default false), `dmi_allow` (default true), `map_file`
   * (default empty), `max_bloc_size` (default 0x100000000), `min_bloc_size`
   * (default the host page size), and the preset values of the target
   * socket's `size`, `address` and `relative_addresses`, if any.
   */
  datatype MemoryConfig = MemoryConfig(
    readOnly: bool,
    dmiAllow: bool,
    mapFile: string,
    maxBlocSize: nat,
    minBlocSize: nat,
    presetSize: Option<nat>,
    presetAddress: Option<nat>,
    presetRelative: Option<bool>)

  /** The byte at region offset `k` of a (possibly not yet created) tree. */
  function Stored(root: Option<Node>, k: nat): Option<bv8>
  {
    if root.Some? then Lookup(root.value, k) else None
  }

  /** The region from offset `offset` on holds `bytes`. */
  ghost predicate Holds(root: Option<Node>, offset: nat, bytes: seq<bv8>)
  {
    forall j :: 0 <= j < |bytes| ==> Stored(root, offset + j) == Some(bytes[j])
  }

  /** Every byte stored in `before` outside `[lo, hi)` is stored, with the same value, in `after`. */
  ghost predicate KeepsOutside(before: Option<Node>, after: Option<Node>, lo: nat, hi: nat)
  {
    forall k: nat :: Stored(before, k).Some? && !(lo <= k < hi) ==> Stored(after, k) == Stored(before, k)
  }

  /** Every byte stored in `before` is stored, with the same value, in `after`. */
  ghost predicate Extends(before: Option<Node>, after: Option<Node>)
  {
    KeepsOutside(before, after, 0, 0)
  }

  lemma HoldsAppend(root: Option<Node>, offset: nat, a: seq<bv8>, b: seq<bv8>)
    requires Holds(root, offset, a) && Holds(root, offset + |a|, b)
    ensures Holds(root, offset, a + b)
  {
    forall j | 0 <= j < |a + b|
      ensures Stored(root, offset + j) == Some((a + b)[j])
    {
      if j >= |a| {
        assert Stored(root, offset + |a| + (j - |a|)) == Some(b[j - |a|]);
      }
    }
  }

  /** Bytes a region holds survive any change that keeps them. */
  lemma HoldsKept(before: Option<Node>, after: Option<Node>, lo: nat, hi: nat, offset: nat, bytes: seq<bv8>)
    requires Holds(before, offset, bytes) && KeepsOutside(before, after, lo, hi)
    requires offset + |bytes| <= lo || hi <= offset || hi <= lo
    ensures Holds(after, offset, bytes)
  {
    forall j | 0 <= j < |bytes|
      ensures Stored(after, offset + j) == Some(bytes[j])
    {
      assert Stored(before, offset + j) == Some(bytes[j]);
    }
  }

  lemma KeepsOutsideTrans(a: Option<Node>, b: Option<Node>, c: Option<Node>, lo: nat, hi: nat, lo': nat, hi': nat)
    requires KeepsOutside(a, b, lo, hi) && KeepsOutside(b, c, lo', hi')
    requires hi' <= lo' || (lo <= lo' && hi' <= hi)
    ensures KeepsOutside(a, c, lo, hi)
  {
    forall k: nat | Stored(a, k).Some? && !(lo <= k < hi)
      ensures Stored(c, k) == Stored(a, k)
    {
      assert Stored(b, k) == Stored(a, k);
    }
  }

  /**
   * One round of a copy loop seen from the stored bytes: the round changes
   * `before` into `after` only in `[lo', hi')`, after the bytes of `prefix`,
   * and `after` holds `part` right after them; so `prefix + part` is held,
   * and the change since `origin` stays confined to `[lo, hi)`.
   */
  lemma Combine(origin: Option<Node>, before: Option<Node>, after: Option<Node>, lo: nat, hi: nat, lo': nat, hi': nat,
                offset: nat, prefix: seq<bv8>, part: seq<bv8>)
    requires hi' <= lo' || (lo <= lo' && hi' <= hi)
    requires offset + |prefix| <= lo' || hi' <= lo'
    requires Holds(before, offset, prefix) && KeepsOutside(origin, before, lo, hi)
    requires KeepsOutside(before, after, lo', hi') && Holds(after, offset + |prefix|, part)
    ensures KeepsOutside(origin, after, lo, hi) && Holds(after, offset, prefix + part)
  {
    HoldsKept(before, after, lo', hi', offset, prefix);
    HoldsAppend(after, offset, prefix, part);
    KeepsOutsideTrans(origin, before, after, lo, hi, lo', hi');
  }

  /** `after` is `before` with `chunk` copied to `at + done`: the slice from `at` on reads as the old prefix, then the chunk. */
  lemma Patched(before: seq<bv8>, after: seq<bv8>, at: nat, done: nat, chunk: seq<bv8>)
    requires at + done + |chunk| <= |before| == |after|
    requires forall j :: 0 <= j < |chunk| ==> after[at + done + j] == chunk[j]
    requires forall i :: 0 <= i < |after| && !(at + done <= i < at + done + |chunk|) ==> after[i] == before[i]
    ensures after[at .. at + done + |chunk|] == before[at .. at + done] + chunk
  {
    var lhs, rhs := after[at .. at + done + |chunk|], before[at .. at + done] + chunk;
    forall i | 0 <= i < |lhs|
      ensures lhs[i] == rhs[i]
    {
      if i >= done {
        assert after[at + done + (i - done)] == chunk[i - done];
      }
    }
  }

  lemma SliceSplit(s: seq<bv8>, a: nat, b: nat, k: nat, d: nat)
    requires a <= b && b + k <= d <= |s|
    ensures s[a .. b + k] == s[a .. b] + s[b .. d][.. k]
  {
    assert s[b .. d][.. k] == s[b .. b + k];
  }

  /** One round of the `write` loop keeps the loop's invariant: `next = done + count` bytes of `buf` from `at` are stored. */
  lemma WriteAdvance(origin: Option<Node>, before: Option<Node>, after: Option<Node>, buf: seq<bv8>,
                     at: nat, offset: nat, done: nat, count: nat, next: nat, len: nat)
    requires at + len <= |buf| && next == done + count <= len
    requires KeepsOutside(origin, before, offset, offset + len) && Holds(before, offset, buf[at .. at + done])
    requires KeepsOutside(before, after, offset + done, offset + done + count)
    requires Holds(after, offset + done, buf[at + done .. at + len][.. count])
    ensures KeepsOutside(origin, after, offset, offset + len) && Holds(after, offset, buf[at .. at + next])
  {
    Combine(origin, before, after, offset, offset + len, offset + done, offset + done + count,
            offset, buf[at .. at + done], buf[at + done .. at + len][.. count]);
    SliceSplit(buf, at, at + done, count, at + len);
  }

  /** One round of the `read` loop keeps the loop's invariant: the copied-out bytes, old and new, are stored. */
  lemma ReadAdvance(origin: Option<Node>, before: Option<Node>, after: Option<Node>, prior: seq<bv8>, patched: seq<bv8>,
                    at: nat, offset: nat, done: nat, chunk: seq<bv8>, next: nat)
    requires next == done + |chunk| && at + next <= |prior| == |patched|
    requires forall j :: 0 <= j < |chunk| ==> patched[at + done + j] == chunk[j]
    requires forall i :: 0 <= i < |patched| && !(at + done <= i < at + done + |chunk|) ==> patched[i] == prior[i]
    requires Extends(origin, before) && Holds(before, offset, prior[at .. at + done])
    requires Extends(before, after) && Holds(after, offset + done, chunk)
    ensures Extends(origin, after) && Holds(after, offset, patched[at .. at + next])
  {
    Patched(prior, patched, at, done, chunk);
    Combine(origin, before, after, 0, 0, 0, 0, offset, prior[at .. at + done], chunk);
  }

  /**
   * The bound `read` and `write` assert on entry, as written:
   * `offset + len < m_size`.
   */
  predicate BoundAsWritten(offset: nat, len: nat, size: nat)
  {
    offset + len < size
  }

  /**
   * The bound the transport checks establish and `read`/`write` evidently
   * intend: the request ends at or before the end of the memory.
   */
  predicate InBounds(offset: nat, len: nat, size: nat)
  {
    offset + len <= size
  }

  /**
   * The address check of `b_transport`: in absolute mode an address below
   * the base is refused and the base is subtracted; then the access must end
   * within the memory. The result is the region offset of the access.
   */
  function AdmitAccess(relative: bool, base: nat, size: nat, addr: nat, len: nat): (r: Option<nat>)
    ensures r.Some? <==> (relative || base <= addr) && InBounds(if relative then addr else addr - base, len, size)
    ensures r.Some? ==> (if relative then r.value else r.value + base) == addr
  {
    if !relative && addr < base then None
    else
      var offset := if relative then addr else addr - base;
      if offset + len > size then None else Some(offset)
  }

  /**
   * A request the transport admits may still trip the bound `read` and
   * `write` assert: a one-byte access to the last byte of the memory.
   */
  lemma LastByteTripsAssertion(relative: bool, base: nat, size: nat)
    requires size > 0
    ensures var addr := if relative then size - 1 else base + size - 1;
      && AdmitAccess(relative, base, size, addr, 1) == Some(size - 1)
      && !BoundAsWritten(size - 1, 1, size)
  {
  }

  /** Every request the transport admits satisfies the intended bound. */
  lemma AdmittedInBounds(relative: bool, base: nat, size: nat, addr: nat, len: nat)
    requires AdmitAccess(relative, base, size, addr, len).Some?
    ensures InBounds(AdmitAccess(relative, base, size, addr, len).value, len, size)
  {
  }

  /** Whether byte `i` of a request takes part, given the byte-enable entries. */
  predicate Enabled(byteEnable: Option<seq<bv8>>, i: nat)
    requires byteEnable.Some? ==> |byteEnable.value| > 0
  {
    byteEnable.None? || byteEnable.value[i % |byteEnable.value|] == ByteEnabled
  }

  class Memory {
    const config: MemoryConfig
    const host: Host

    var size: nat                 // m_size
    var address: nat              // m_address
    var addressValid: bool        // m_address_valid
    var relativeAddresses: bool   // m_relative_addresses
    var presetSize: Option<nat>   // the broker's preset for the socket's size
    var root: Option<Node>        // m_sub_block

    function Geo(): Geometry
    {
      Geometry(config.maxBlocSize, config.minBlocSize, config.mapFile)
    }

    ghost predicate Valid()
      reads this
    {
      && (root.Some? ==> SubBlocks.Valid(Geo(), root.value) && root.value.address == 0 && root.value.len == size)
      && (root.None? ==> size == 0)
    }

    predicate Elaborated()
      reads this
    {
      root.Some?
    }

    /** The region offset the transport admits for `len` bytes at bus address `addr`, if any. */
    function Admit(addr: nat, len: nat): Option<nat>
      reads this
    {
      AdmitAccess(relativeAddresses, address, size, addr, len)
    }

    /**
     * The constructor: a non-zero `size0` becomes the size preset unless a
     * size is already configured. No storage exists yet.
     */
    constructor (config: MemoryConfig, host: Host, size0: nat)
      ensures this.config == config && this.host == host
      ensures presetSize == if size0 != 0 && config.presetSize.None? then Some(size0) else config.presetSize
      ensures size == 0 && !addressValid && root.None? && Valid()
    {
      this.config := config;
      this.host := host;
      presetSize := if size0 != 0 && config.presetSize.None? then Some(size0) else config.presetSize;
      size := 0;
      address := 0;
      addressValid := false;
      relativeAddresses := true;
      root := None;
    }

    /** `size()`: read the size once from the configuration; a missing size is fatal. */
    method Size() returns (outcome: Outcome, s: nat)
      modifies this`size
      ensures outcome.Done? <==> old(size) != 0 || presetSize.Some?
      ensures outcome.Abort? ==> outcome.reason == MissingSize
      ensures size == if old(size) != 0 then old(size) else presetSize.GetOr(0)
      ensures s == size
    {
      if size == 0 {
        if presetSize.None? {
          return Abort(MissingSize), size;
        }
        size := presetSize.value;
      }
      return Done, size;
    }

    /** `base()`: read the base address once; a missing address reads as 0. */
    method Base() returns (b: nat)
      modifies this`address, this`addressValid
      ensures addressValid
      ensures address == if old(addressValid) then old(address) else config.presetAddress.GetOr(0)
      ensures b == address
    {
      if !addressValid {
        address := if config.presetAddress.Some? then config.presetAddress.value else 0;
        addressValid := true;
      }
      b := address;
    }

    /**
     * `before_end_of_elaboration`: fix base and size, create the root block
     * over `[0, size)` and resolve the addressing mode (relative by default).
     * Does nothing once the root exists.
     */
    method BeforeEndOfElaboration() returns (outcome: Outcome)
      requires Valid()
      modifies this`size, this`address, this`addressValid, this`relativeAddresses, this`root
      ensures Valid()
      ensures outcome.Done? <==> old(root).Some? || old(size) != 0 || presetSize.Some?
      ensures outcome.Abort? ==> outcome.reason == MissingSize
      ensures root == if old(root).Some? then old(root) else if outcome.Done? then Some(Node(0, size, Unallocated)) else None
      ensures size == if old(root).Some? || old(size) != 0 then old(size) else presetSize.GetOr(0)
      ensures address == if old(root).Some? || old(addressValid) then old(address) else config.presetAddress.GetOr(0)
      ensures addressValid == (old(root).Some? ==> old(addressValid))
      ensures relativeAddresses ==
        if old(root).Some? || outcome.Abort? then old(relativeAddresses) else config.presetRelative.GetOr(true)
    {
      if root.Some? {
        return Done;
      }
      var _ := Base();
      var s;
      outcome, s := Size();
      if outcome.Abort? {
        return;
      }
      root := Some(Node(0, size, Unallocated));
      relativeAddresses := if config.presetRelative.Some? then config.presetRelative.value else true;
    }

    /**
     * The entry of `read` and `write`: elaborate if that has not happened
     * yet, then check that the request lies within the memory (the intended
     * bound; see `BoundAsWritten` for the one the source asserts).
     */
    method Prepare(offset: nat, len: nat) returns (outcome: Outcome)
      requires Valid()
      modifies this`size, this`address, this`addressValid, this`relativeAddresses, this`root
      ensures Valid()
      ensures old(root).Some? ==> (root == old(root) && size == old(size) && address == old(address)
        && relativeAddresses == old(relativeAddresses) && addressValid == old(addressValid))
      ensures old(root).None? ==> Stored(root, 0).None? && KeepsOutside(old(root), root, 0, 0)
      ensures outcome.Done? <==> Elaborated() && InBounds(offset, len, size)
      ensures outcome == Abort(BoundsAssertion) <==> Elaborated() && !InBounds(offset, len, size)
      ensures outcome.Abort? && outcome.reason != BoundsAssertion ==> outcome == Abort(MissingSize)
    {
      if root.None? {
        outcome := BeforeEndOfElaboration();
        if outcome.Abort? {
          return;
        }
      }
      if !InBounds(offset, len, size) {
        return Abort(BoundsAssertion);
      }
      outcome := Done;
    }

    /**
     * `read`: copy `len` bytes starting at region offset `offset` into
     * `data[at..at + len]`, leaf by leaf, creating the root first if needed.
     * The entry bound is the intended `offset + len <= size`; see
     * `BoundAsWritten` for the one the source asserts.
     */
    method Read(data: array<bv8>, at: nat, offset: nat, len: nat) returns (outcome: Outcome)
      requires Valid() && at + len <= data.Length
      modifies this`size, this`address, this`addressValid, this`relativeAddresses, this`root, data
      ensures Valid()
      ensures old(root).Some? ==> (size == old(size) && address == old(address)
        && relativeAddresses == old(relativeAddresses) && addressValid == old(addressValid))
      ensures Extends(old(root), root)
      ensures outcome.Done? ==> Elaborated() && InBounds(offset, len, size)
      ensures outcome.Done? ==> Holds(root, offset, data[at .. at + len])
      ensures outcome == Abort(BoundsAssertion) <==> Elaborated() && !InBounds(offset, len, size)
      ensures outcome == Abort(MissingSize) ==> old(root).None?
      ensures forall j :: 0 <= j < data.Length && !(at <= j < at + len) ==> data[j] == old(data[j])
    {
      outcome := Prepare(offset, len);
      if outcome.Abort? {
        return;
      }
      var done := 0;
      while done < len
        invariant done <= len
        invariant Valid() && Elaborated() && InBounds(offset, len, size)
        invariant Extends(old(root), root)
        invariant Holds(root, offset, data[at .. at + done])
        invariant forall j :: 0 <= j < data.Length && !(at <= j < at + done) ==> data[j] == old(data[j])
        modifies this`root, data
        decreases len - done
      {
        var round := ReadRound(Geo(), host, root.value, offset + done, len - done);
        if round.Err? {
          return Abort(round.error);
        }
        var tree, chunk := round.value.0, round.value.1;
        ghost var before := data[..];
        assert data[at .. at + done] == before[at .. at + done];
        forall j | 0 <= j < |chunk| {
          data[at + done + j] := chunk[j];
        }
        var next := done + |chunk|;
        ReadAdvance(old(root), root, Some(tree), before, data[..], at, offset, done, chunk, next);
        root := Some(tree);
        done := next;
      }
      outcome := Done;
    }

    /**
     * `write`: copy `data[at..at + len]` to region offset `offset`, leaf by
     * leaf, creating the root first if needed. Bytes outside the range keep
     * their value.
     */
    method Write(data: array<bv8>, at: nat, offset: nat, len: nat) returns (outcome: Outcome)
      requires Valid() && at + len <= data.Length
      modifies this`size, this`address, this`addressValid, this`relativeAddresses, this`root
      ensures Valid()
      ensures old(root).Some? ==> (size == old(size) && address == old(address)
        && relativeAddresses == old(relativeAddresses) && addressValid == old(addressValid))
      ensures KeepsOutside(old(root), root, offset, offset + len)
      ensures outcome.Done? ==> Elaborated() && InBounds(offset, len, size)
      ensures outcome.Done? ==> Holds(root, offset, data[at .. at + len])
      ensures outcome == Abort(BoundsAssertion) <==> Elaborated() && !InBounds(offset, len, size)
      ensures outcome == Abort(MissingSize) ==> old(root).None?
    {
      outcome := Prepare(offset, len);
      if outcome.Abort? {
        return;
      }
      ghost var buf := data[..];
      var done := 0;
      while done < len
        invariant done <= len
        invariant Valid() && Elaborated() && InBounds(offset, len, size)
        invariant KeepsOutside(old(root), root, offset, offset + len)
        invariant Holds(root, offset, buf[at .. at + done])
        invariant data[..] == buf
        modifies this`root
        decreases len - done
      {
        var src := data[..][at + done .. at + len];
        var round := WriteRound(Geo(), host, root.value, offset + done, src);
        if round.Err? {
          return Abort(round.error);
        }
        var tree, count := round.value.0, round.value.1;
        var next := done + count;
        WriteAdvance(old(root), root, Some(tree), buf, at, offset, done, count, next, len);
        root := Some(tree);
        done := next;
      }
      outcome := Done;
    }

    /**
     * A `write` of `src[..len]` followed by a `read` of the same range into
     * `dst` copies exactly the written bytes.
     */
    method WriteThenRead(src: array<bv8>, dst: array<bv8>, offset: nat, len: nat) returns (outcome: Outcome)
      requires Valid() && len <= src.Length && len <= dst.Length && src != dst
      modifies this`size, this`address, this`addressValid, this`relativeAddresses, this`root, dst
      ensures Valid()
      ensures outcome.Done? ==> dst[.. len] == src[.. len]
      ensures outcome == Abort(BoundsAssertion) <==> Elaborated() && !InBounds(offset, len, size)
    {
      outcome := Write(src, 0, offset, len);
      if outcome.Abort? {
        return;
      }
      ghost var written := root;
      outcome := Read(dst, 0, offset, len);
      if outcome.Done? {
        ReadAfterWrite(written, root, offset, src[0 .. len], dst[0 .. len]);
      }
    }

    /**
     * `b_transport`: check the address (absolute mode subtracts the base and
     * refuses addresses below it; the access must end within the memory),
     * refuse writes to a read-only memory, then read or write the payload's
     * bytes, one by one when byte enables are present. A command that is
     * neither read nor write is fatal. On success the response is OK and DMI
     * is hinted when the memory allows it.
     */
    method BTransport(txn: GenericPayload) returns (outcome: Outcome)
      requires Valid() && txn.dataLength <= txn.data.Length
      requires txn.byteEnable.Some? ==> |txn.byteEnable.value| > 0
      modifies this`size, this`address, this`addressValid, this`relativeAddresses, this`root
      modifies txn`response, txn`dmiAllowed, txn.data
      ensures Valid()
      ensures var admitted := AdmitAccess(old(relativeAddresses), old(address), old(size), txn.address, txn.dataLength);
        && (admitted.None? ==>
              && outcome.Done? && txn.response == AddressErrorResponse && txn.dmiAllowed == old(txn.dmiAllowed)
              && root == old(root) && txn.data[..] == old(txn.data[..]))
        && (admitted.Some? && txn.command.WriteCommand? && config.readOnly ==>
              && outcome.Done? && txn.response == CommandErrorResponse && txn.dmiAllowed == old(txn.dmiAllowed)
              && root == old(root) && txn.data[..] == old(txn.data[..]))
        && (admitted.Some? && txn.command.IgnoreCommand? ==> outcome == Abort(UnsupportedCommand))
        && (admitted.Some? && txn.command.ReadCommand? && outcome.Done? ==>
              && txn.response == OkResponse
              && txn.dmiAllowed == (old(txn.dmiAllowed) || config.dmiAllow)
              && Extends(old(root), root)
              && ReadBack(root, admitted.value, txn.byteEnable, old(txn.data[..]), txn.data[..], txn.dataLength))
        && (admitted.Some? && txn.command.WriteCommand? && !config.readOnly && outcome.Done? ==>
              && txn.response == OkResponse
              && txn.dmiAllowed == (old(txn.dmiAllowed) || config.dmiAllow)
              && txn.data[..] == old(txn.data[..])
              && WrittenBack(old(root), root, admitted.value, txn.byteEnable, txn.data[..], txn.dataLength))
      ensures outcome.Abort? ==> outcome.reason != BoundsAssertion
      ensures outcome == Abort(MissingSize) ==> old(root).None?
    {
      var len := txn.dataLength;
      var be := txn.byteEnable;
      var admitted := AdmitAccess(relativeAddresses, address, size, txn.address, len);
      if admitted.None? {
        txn.response := AddressErrorResponse;
        return Done;
      }
      var offset := admitted.value;
      match txn.command {
        case ReadCommand =>
          outcome := ReadPayload(txn.data, offset, len, be);
        case WriteCommand =>
          if config.readOnly {
            txn.response := CommandErrorResponse;
            return Done;
          }
          outcome := WritePayload(txn.data, offset, len, be);
        case IgnoreCommand =>
          return Abort(UnsupportedCommand);
      }
      if outcome.Abort? {
        return;
      }
      txn.response := OkResponse;
      if config.dmiAllow {
        txn.dmiAllowed := true;
      }
    }

    /** The read of `b_transport`: byte by byte when byte enables are present, else in one `read`. */
    method ReadPayload(data: array<bv8>, offset: nat, len: nat, be: Option<seq<bv8>>) returns (outcome: Outcome)
      requires Valid() && len <= data.Length && InBounds(offset, len, size)
      requires be.Some? ==> |be.value| > 0
      modifies this`size, this`address, this`addressValid, this`relativeAddresses, this`root, data
      ensures Valid() && Extends(old(root), root)
      ensures outcome.Abort? ==> outcome.reason != BoundsAssertion
      ensures outcome == Abort(MissingSize) ==> old(root).None?
      ensures outcome.Done? ==> ReadBack(root, offset, be, old(data[..]), data[..], len)
    {
      if be.Some? {
        outcome := ReadEnabled(data, offset, len, be);
      } else {
        outcome := Read(data, 0, offset, len);
        if outcome.Done? {
          HoldsReadBack(root, offset, old(data[..]), data[..], len);
        }
      }
    }

    /** The write of `b_transport`: byte by byte when byte enables are present, else in one `write`. */
    method WritePayload(data: array<bv8>, offset: nat, len: nat, be: Option<seq<bv8>>) returns (outcome: Outcome)
      requires Valid() && len <= data.Length && InBounds(offset, len, size)
      requires be.Some? ==> |be.value| > 0
      modifies this`size, this`address, this`addressValid, this`relativeAddresses, this`root
      ensures Valid()
      ensures outcome.Abort? ==> outcome.reason != BoundsAssertion
      ensures outcome == Abort(MissingSize) ==> old(root).None?
      ensures outcome.Done? ==> WrittenBack(old(root), root, offset, be, data[..], len)
    {
      if be.Some? {
        outcome := WriteEnabled(data, offset, len, be);
      } else {
        outcome := Write(data, 0, offset, len);
        if outcome.Done? {
          HoldsWrittenBack(old(root), root, offset, data[..], len);
        }
      }
    }

    /** The read of `b_transport` with byte enables: one single-byte `read` per enabled byte. */
    method ReadEnabled(data: array<bv8>, offset: nat, len: nat, be: Option<seq<bv8>>) returns (outcome: Outcome)
      requires Valid() && len <= data.Length && InBounds(offset, len, size)
      requires be.Some? ==> |be.value| > 0
      modifies this`size, this`address, this`addressValid, this`relativeAddresses, this`root, data
      ensures Valid() && Extends(old(root), root)
      ensures outcome.Abort? ==> outcome.reason != BoundsAssertion && outcome.reason != MissingSize
      ensures outcome.Done? ==> ReadBack(root, offset, be, old(data[..]), data[..], len)
    {
      var i := 0;
      while i < len
        invariant i <= len && Valid()
        invariant len > 0 ==> Elaborated() && InBounds(offset, len, size)
        invariant Extends(old(root), root)
        invariant ReadBack(root, offset, be, old(data[..]), data[..], i)
      {
        if Enabled(be, i) {
          ghost var root0, bytes0 := root, data[..];
          outcome := Read(data, i, offset + i, 1);
          if outcome.Abort? {
            return;
          }
          ReadBackStep(old(root), root0, root, offset, be, old(data[..]), bytes0, data[..], i);
        }
        i := i + 1;
      }
      outcome := Done;
    }

    /** The write of `b_transport` with byte enables: one single-byte `write` per enabled byte. */
    method WriteEnabled(data: array<bv8>, offset: nat, len: nat, be: Option<seq<bv8>>) returns (outcome: Outcome)
      requires Valid() && len <= data.Length && InBounds(offset, len, size)
      requires be.Some? ==> |be.value| > 0
      modifies this`size, this`address, this`addressValid, this`relativeAddresses, this`root
      ensures Valid()
      ensures outcome.Abort? ==> outcome.reason != BoundsAssertion && outcome.reason != MissingSize
      ensures outcome.Done? ==> WrittenBack(old(root), root, offset, be, data[..], len)
    {
      var i := 0;
      while i < len
        invariant i <= len && Valid()
        invariant len > 0 ==> Elaborated() && InBounds(offset, len, size)
        invariant WrittenBack(old(root), root, offset, be, data[..], i)
      {
        ghost var root0 := root;
        if Enabled(be, i) {
          outcome := Write(data, i, offset + i, 1);
          if outcome.Abort? {
            return;
          }
        }
        WrittenBackStep(old(root), root0, root, offset, be, data[..], i);
        i := i + 1;
      }
      outcome := Done;
    }

    /**
     * `transport_dbg`: a `b_transport` whose result is the payload's length
     * when the response is OK and 0 otherwise.
     */
    method TransportDbg(txn: GenericPayload) returns (outcome: Outcome, count: nat)
      requires Valid() && txn.dataLength <= txn.data.Length
      requires txn.byteEnable.Some? ==> |txn.byteEnable.value| > 0
      modifies this`size, this`address, this`addressValid, this`relativeAddresses, this`root
      modifies txn`response, txn`dmiAllowed, txn.data
      ensures Valid()
      ensures outcome.Done? ==> count == (if txn.response == OkResponse then txn.dataLength else 0)
      ensures outcome.Done? ==>
        (txn.response == OkResponse <==>
          && AdmitAccess(old(relativeAddresses), old(address), old(size), txn.address, txn.dataLength).Some?
          && !(txn.command.WriteCommand? && config.readOnly))
    {
      outcome := BTransport(txn);
      count := if txn.response == OkResponse then txn.dataLength else 0;
    }

    /**
     * `get_direct_mem_ptr`: when DMI is allowed and the address lies in the
     * memory, grant the whole leaf that holds it, translated back to bus
     * addresses in absolute mode, read-only for a read-only memory.
     */
    method GetDirectMemPtr(txn: GenericPayload, dmi: Dmi) returns (outcome: Outcome, granted: bool, dmi': Dmi)
      requires Valid()
      modifies this`root, txn`response
      ensures Valid() && Elaborated() == old(Elaborated()) && Extends(old(root), root)
      ensures !config.dmiAllow ==>
        outcome.Done? && !granted && dmi' == dmi && root == old(root) && txn.response == old(txn.response)
      ensures config.dmiAllow && Admit(txn.address, 1).None? ==>
        outcome.Done? && !granted && dmi' == dmi && root == old(root) && txn.response == AddressErrorResponse
      ensures config.dmiAllow && Admit(txn.address, 1).Some? && outcome.Done? ==>
        var shift := if relativeAddresses then 0 else address;
        && granted && txn.response == old(txn.response)
        && dmi'.access == (if config.readOnly then DmiRead else DmiReadWrite)
        && dmi'.start <= txn.address <= dmi'.end && shift <= dmi'.start && dmi'.end < shift + size
        && forall k: nat :: dmi'.start - shift <= k <= dmi'.end - shift ==> Stored(root, k).Some?
      ensures config.dmiAllow && Admit(txn.address, 1).Some? && outcome.Done? ==>
        var shift := if relativeAddresses then 0 else address;
        var l := LeafAt(root.value, Admit(txn.address, 1).value);
        && l.Some? && dmi'.start == l.value.address + shift && dmi'.end == l.value.address + l.value.len - 1 + shift
      ensures outcome.Abort? ==> !granted && outcome.reason != BoundsAssertion && outcome.reason != MissingSize
    {
      dmi' := dmi;
      if !config.dmiAllow {
        return Done, false, dmi';
      }
      var admitted := AdmitAccess(relativeAddresses, address, size, txn.address, 1);
      if admitted.None? {
        txn.response := AddressErrorResponse;
        return Done, false, dmi';
      }
      var offset := admitted.value;
      assert root.Some?;
      var acc := Access(Geo(), host, root.value, offset);
      if acc.Err? {
        return Abort(acc.error), false, dmi';
      }
      var tree, leaf := acc.value.tree, acc.value.leaf;
      DmiWindow(Geo(), host, root.value, offset);
      root := Some(tree);
      assert LeafAt(root.value, offset) == Some(leaf);
      var shift := if relativeAddresses then 0 else address;
      dmi' := Dmi(leaf.address + shift, leaf.address + shift + leaf.len - 1,
                  if config.readOnly then DmiRead else DmiReadWrite);
      granted := true;
      outcome := Done;
    }
  }

  /**
   * Reading back a range that was written, with nothing overwritten since
   * (the tree only grew), gives the written bytes.
   */
  lemma ReadAfterWrite(written: Option<Node>, later: Option<Node>, offset: nat, w: seq<bv8>, d: seq<bv8>)
    requires Holds(written, offset, w) && Extends(written, later)
    requires Holds(later, offset, d) && |d| == |w|
    ensures d == w
  {
    forall j | 0 <= j < |w|
      ensures d[j] == w[j]
    {
      assert Stored(written, offset + j) == Some(w[j]);
    }
  }

  /**
   * After a byte-enabled read of the first `n` bytes: each enabled byte of
   * `bytes` is the stored byte at its offset, each disabled one and each one
   * from `n` on is still the `prior` byte.
   */
  ghost predicate ReadBack(root: Option<Node>, offset: nat, be: Option<seq<bv8>>, prior: seq<bv8>, bytes: seq<bv8>, n: nat)
    requires be.Some? ==> |be.value| > 0
  {
    && n <= |bytes| == |prior|
    && (forall j :: 0 <= j < n ==> if Enabled(be, j) then Stored(root, offset + j) == Some(bytes[j]) else bytes[j] == prior[j])
    && (forall j :: n <= j < |bytes| ==> bytes[j] == prior[j])
  }

  /**
   * After a byte-enabled write of the first `n` bytes of `bytes` to `offset`:
   * each enabled byte is stored, and every byte `before` stored elsewhere,
   * or under a disabled byte, keeps its value.
   */
  ghost predicate WrittenBack(before: Option<Node>, after: Option<Node>, offset: nat, be: Option<seq<bv8>>,
                              bytes: seq<bv8>, n: nat)
    requires be.Some? ==> |be.value| > 0
  {
    && n <= |bytes|
    && (forall j :: 0 <= j < n && Enabled(be, j) ==> Stored(after, offset + j) == Some(bytes[j]))
    && (forall k: nat :: Stored(before, k).Some? && !(offset <= k < offset + n && Enabled(be, k - offset)) ==>
          Stored(after, k) == Stored(before, k))
  }

  /** A whole-range read is a byte-enabled read with every byte enabled. */
  lemma HoldsReadBack(root: Option<Node>, offset: nat, prior: seq<bv8>, bytes: seq<bv8>, len: nat)
    requires len <= |bytes| == |prior| && Holds(root, offset, bytes[0 .. len])
    requires forall j :: 0 <= j < |bytes| && !(0 <= j < 0 + len) ==> bytes[j] == prior[j]
    ensures ReadBack(root, offset, None, prior, bytes, len)
  {
    forall j | 0 <= j < len
      ensures Stored(root, offset + j) == Some(bytes[j])
    {
      assert bytes[0 .. len][j] == bytes[j];
    }
  }

  /** A whole-range write is a byte-enabled write with every byte enabled. */
  lemma HoldsWrittenBack(before: Option<Node>, after: Option<Node>, offset: nat, bytes: seq<bv8>, len: nat)
    requires len <= |bytes| && Holds(after, offset, bytes[0 .. len]) && KeepsOutside(before, after, offset, offset + len)
    ensures WrittenBack(before, after, offset, None, bytes, len)
  {
    forall j | 0 <= j < len
      ensures Stored(after, offset + j) == Some(bytes[j])
    {
      assert bytes[0 .. len][j] == bytes[j];
    }
  }

  /** One enabled byte read at position `i` extends the byte-enabled read to `i + 1`. */
  lemma ReadBackStep(origin: Option<Node>, before: Option<Node>, after: Option<Node>, offset: nat, be: Option<seq<bv8>>,
                     prior: seq<bv8>, bytes: seq<bv8>, bytes': seq<bv8>, i: nat)
    requires be.Some? ==> |be.value| > 0
    requires i < |bytes| == |bytes'| && Enabled(be, i)
    requires Extends(origin, before) && ReadBack(before, offset, be, prior, bytes, i)
    requires Extends(before, after) && Holds(after, offset + i, bytes'[i .. i + 1])
    requires forall j :: 0 <= j < |bytes'| && !(i <= j < i + 1) ==> bytes'[j] == bytes[j]
    ensures Extends(origin, after) && ReadBack(after, offset, be, prior, bytes', i + 1)
  {
    KeepsOutsideTrans(origin, before, after, 0, 0, 0, 0);
    assert Stored(after, offset + i + 0) == Some(bytes'[i .. i + 1][0]);
    forall j | 0 <= j < i && Enabled(be, j)
      ensures Stored(after, offset + j) == Some(bytes'[j])
    {
      assert Stored(before, offset + j) == Some(bytes[j]);
    }
  }

  /** Position `i` of a byte-enabled write, enabled or not, extends it to `i + 1`. */
  lemma WrittenBackStep(origin: Option<Node>, before: Option<Node>, after: Option<Node>, offset: nat, be: Option<seq<bv8>>,
                        bytes: seq<bv8>, i: nat)
    requires be.Some? ==> |be.value| > 0
    requires i < |bytes| && WrittenBack(origin, before, offset, be, bytes, i)
    requires Enabled(be, i) ==> Holds(after, offset + i, bytes[i .. i + 1]) && KeepsOutside(before, after, offset + i, offset + i + 1)
    requires !Enabled(be, i) ==> after == before
    ensures WrittenBack(origin, after, offset, be, bytes, i + 1)
  {
    if Enabled(be, i) {
      assert Stored(after, offset + i + 0) == Some(bytes[i .. i + 1][0]);
      forall j | 0 <= j < i && Enabled(be, j)
        ensures Stored(after, offset + j) == Some(bytes[j])
      {
        assert Stored(before, offset + j) == Some(bytes[j]);
      }
      forall k: nat | Stored(origin, k).Some? && !(offset <= k < offset + i + 1 && Enabled(be, k - offset))
        ensures Stored(after, k) == Stored(origin, k)
      {
        assert Stored(before, k) == Stored(origin, k);
      }
    }
  }

  /**
   * The window `get_direct_mem_ptr` grants: the leaf the access hands out
   * lies within the tree and holds `a`, and every byte of it is stored.
   */
  lemma {:induction false} DmiWindow(g: Geometry, host: Host, n: Node, a: nat)
    requires Valid(g, n) && Covers(n, a) && Access(g, host, n, a).Ok?
    ensures var acc := Access(g, host, n, a).value;
      && Valid(g, acc.tree) && acc.tree.address == n.address && acc.tree.len == n.len
      && LeafAt(acc.tree, a) == Some(acc.leaf) && acc.leaf.address <= a < acc.leaf.address + acc.leaf.len
      && n.address <= acc.leaf.address && acc.leaf.address + acc.leaf.len <= n.address + n.len
      && Extends(Some(n), Some(acc.tree))
      && forall k: nat :: acc.leaf.address <= k < acc.leaf.address + acc.leaf.len ==> Lookup(acc.tree, k).Some?
  {
    var acc := Access(g, host, n, a).value;
    LeafAtNested(g, acc.tree, a);
    forall k: nat | Stored(Some(n), k).Some?
      ensures Stored(Some(acc.tree), k) == Stored(Some(n), k)
    {
      AccessKeepsBytes(g, host, n, a, k);
    }
  }

  /**
   * One round of the `read` loop on values: the leaf of `n` that holds `cur`
   * (created if need be) hands out up to `remaining` bytes. The updated tree
   * keeps every byte `n` held and holds the bytes handed out.
   */
  function ReadRound(g: Geometry, host: Host, n: Node, cur: nat, remaining: nat): (r: Result<(Node, seq<bv8>), Fatal>)
    requires Valid(g, n) && Covers(n, cur) && 0 < remaining
    ensures r.Err? ==> r.error == BackingFileMissing || r.error == OutOfMemory || r.error == UnevenSplit
    ensures r.Ok? ==>
      var (t, chunk) := r.value;
      && Valid(g, t) && t.address == n.address && t.len == n.len
      && 0 < |chunk| <= remaining
      && Extends(Some(n), Some(t)) && Holds(Some(t), cur, chunk)
  {
    var acc := Access(g, host, n, cur);
    if acc.Err? then Err(acc.error)
    else
      LeafAtNested(g, acc.value.tree, cur);
      var chunk := ReadSubBlocks(acc.value.leaf, cur, remaining);
      ReadStep(g, host, n, cur, acc.value.tree, acc.value.leaf, chunk);
      Ok((acc.value.tree, chunk))
  }

  /**
   * One round of the `write` loop on values: the leaf of `n` that holds
   * `cur` (created if need be) takes the part of `src` that fits and is put
   * back in place. The result holds that part and keeps every other byte.
   */
  function WriteRound(g: Geometry, host: Host, n: Node, cur: nat, src: seq<bv8>): (r: Result<(Node, nat), Fatal>)
    requires Valid(g, n) && Covers(n, cur) && 0 < |src|
    ensures r.Err? ==> r.error == BackingFileMissing || r.error == OutOfMemory || r.error == UnevenSplit
    ensures r.Ok? ==>
      var (t, count) := r.value;
      && Valid(g, t) && t.address == n.address && t.len == n.len
      && 0 < count <= |src|
      && KeepsOutside(Some(n), Some(t), cur, cur + count) && Holds(Some(t), cur, src[.. count])
  {
    var acc := Access(g, host, n, cur);
    if acc.Err? then Err(acc.error)
    else
      var leaf := acc.value.leaf;
      LeafAtNested(g, acc.value.tree, cur);
      assert Covers(leaf, leaf.address);
      var written := WriteSubBlocks(leaf, src, cur, |src|);
      WriteStep(g, host, n, cur, acc.value.tree, leaf, written.0, written.1, src);
      Ok((PutLeaf(g, acc.value.tree, written.0), written.1))
  }

  /**
   * One round of the read loop: the access that turned `n` into `t` keeps
   * every byte `n` held, and the bytes copied out of the leaf are the tree's.
   */
  lemma {:induction false} ReadStep(g: Geometry, host: Host, n: Node, cur: nat, t: Node, l: Node, chunk: seq<bv8>)
    requires Valid(g, n) && Covers(n, cur) && Access(g, host, n, cur) == Ok(Accessed(t, l))
    requires |l.state.buf| == l.len && |chunk| <= l.len - (cur - l.address)
    requires forall j :: 0 <= j < |chunk| ==> Lookup(l, cur + j) == Some(chunk[j])
    ensures Extends(Some(n), Some(t))
    ensures Holds(Some(t), cur, chunk)
  {
    forall k: nat | Stored(Some(n), k).Some?
      ensures Stored(Some(t), k) == Stored(Some(n), k)
    {
      AccessKeepsBytes(g, host, n, cur, k);
    }
    forall j | 0 <= j < |chunk|
      ensures Stored(Some(t), cur + j) == Some(chunk[j])
    {
      LookupInLeaf(g, t, cur, cur + j);
    }
  }

  /**
   * One round of the write loop: after the access that turned `n` into `t`,
   * putting back leaf `l` rewritten as `w` stores `src[..count]` from `cur`
   * on and keeps every other byte `n` held.
   */
  lemma {:induction false} WriteStep(g: Geometry, host: Host, n: Node, cur: nat, t: Node, l: Node, w: Node,
                                     count: nat, src: seq<bv8>)
    requires Valid(g, n) && Covers(n, cur) && Access(g, host, n, cur) == Ok(Accessed(t, l))
    requires LeafAt(t, l.address) == Some(l) && |l.state.buf| == l.len
    requires w.address == l.address && w.len == l.len && w.state.Leaf? && |w.state.buf| == l.len
    requires count <= |src| && cur + count <= l.address + l.len
    requires forall k: nat :: Covers(l, k) ==>
      Lookup(w, k) == if cur <= k < cur + count then Some(src[k - cur]) else Lookup(l, k)
    ensures KeepsOutside(Some(n), Some(PutLeaf(g, t, w)), cur, cur + count)
    ensures Holds(Some(PutLeaf(g, t, w)), cur, src[.. count])
  {
    var t' := PutLeaf(g, t, w);
    forall k: nat
      ensures Lookup(t', k) == if Covers(w, k) then Lookup(w, k) else Lookup(t, k)
    {
      PutLeafLookup(g, t, cur, w, k);
    }
    forall k: nat | Covers(l, k)
      ensures Lookup(t, k) == Lookup(l, k)
    {
      LookupInLeaf(g, t, cur, k);
    }
    forall k: nat | Stored(Some(n), k).Some? && !(cur <= k < cur + count)
      ensures Stored(Some(t'), k) == Stored(Some(n), k)
    {
      AccessKeepsBytes(g, host, n, cur, k);
    }
    forall j | 0 <= j < count
      ensures Stored(Some(t'), cur + j) == Some(src[.. count][j])
    {
    }
  }
}

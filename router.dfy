/**
 * The address router (`gs::Router`): it decodes a transaction's address
 * against a table of targets in bind order, optionally masks the target's
 * base off the address for the duration of the forward, and stamps the
 * transaction with the id of the socket it came in on.
 */
module RouterModel {
  import opened Wrappers
  import opened Tlm

  /** A row of the router's table (`target_info`). */
  datatype TargetInfo = TargetInfo(index: nat, name: string, address: nat, size: nat, maskAddr: bool)

  /** Whether `a` lies in the target's range `[address, address + size)`. */
  predicate Matches(ti: TargetInfo, a: nat)
  {
    ti.address <= a < ti.address + ti.size
  }

  /**
   * The index of the first row, in bind order, whose range holds `a`, if
   * any: the specification of `decode_address`.
   */
  function FirstMatch(ts: seq<TargetInfo>, a: nat): (r: Option<nat>)
    ensures r.Some? ==> r.value < |ts| && Matches(ts[r.value], a)
    ensures r.Some? ==> forall j :: 0 <= j < r.value ==> !Matches(ts[j], a)
    ensures r.None? <==> forall j :: 0 <= j < |ts| ==> !Matches(ts[j], a)
  {
    if |ts| == 0 then None
    else if Matches(ts[0], a) then Some(0)
    else
      var rest := FirstMatch(ts[1..], a);
      assert forall j :: 1 <= j < |ts| ==> ts[j] == ts[1..][j - 1];
      if rest.None? then None else Some(rest.value + 1)
  }

  /**
   * `compose_address`: an offset inside the target, translated back into the
   * router's address space. An offset beyond the target trips the assertion.
   */
  function Compose(ti: TargetInfo, offset: nat): (r: Result<nat, Fatal>)
    ensures r.Ok? <==> offset < ti.size
    ensures r.Ok? ==> Matches(ti, r.value) && r.value - ti.address == offset
    ensures r.Err? ==> r.error == ComposeOutOfRange
  {
    if offset < ti.size then Ok(ti.address + offset) else Err(ComposeOutOfRange)
  }

  /** The address a target sees for bus address `a`: masked targets see the offset into their range. */
  function Seen(ti: TargetInfo, a: nat): nat
    requires Matches(ti, a)
  {
    if ti.maskAddr then a - ti.address else a
  }

  /** Masking is undone by composing: the forwarded offset composes back to the bus address. */
  lemma MaskComposeRoundTrip(ti: TargetInfo, a: nat)
    requires Matches(ti, a) && ti.maskAddr
    ensures Compose(ti, Seen(ti, a)) == Ok(a)
  {
  }

  /** Every address a composition produces decodes to that target or to an earlier, overlapping one. */
  lemma {:induction false} ComposeDecodes(ts: seq<TargetInfo>, i: nat, offset: nat)
    requires i < |ts| && Compose(ts[i], offset).Ok?
    ensures FirstMatch(ts, Compose(ts[i], offset).value).Some?
    ensures FirstMatch(ts, Compose(ts[i], offset).value).value <= i
  {
    assert Matches(ts[i], Compose(ts[i], offset).value);
  }

  /**
   * The window of `get_direct_mem_ptr` as written: for a masked target both
   * ends of the descriptor are composed whatever the target answered, so a
   * refusal that leaves the descriptor as initialised (end `MaxAddress`)
   * trips the composition's assertion.
   */
  function ComposeWindowAsWritten(ti: TargetInfo, status: bool, dmi: Dmi): (r: Result<Dmi, Fatal>)
    ensures !ti.maskAddr ==> r == Ok(dmi)
    ensures ti.maskAddr ==> (r.Ok? <==> dmi.start < ti.size && dmi.end < ti.size)
    ensures r.Ok? && ti.maskAddr ==> r.value == Dmi(ti.address + dmi.start, ti.address + dmi.end, dmi.access)
  {
    if !ti.maskAddr then Ok(dmi)
    else
      var start := Compose(ti, dmi.start);
      var end := Compose(ti, dmi.end);
      if start.Err? then Err(start.error)
      else if end.Err? then Err(end.error)
      else Ok(Dmi(start.value, end.value, dmi.access))
  }

  /**
   * The window as evidently intended: only a granted window is translated;
   * a refusal is passed on as the target left it.
   */
  function ComposeWindow(ti: TargetInfo, status: bool, dmi: Dmi): (r: Result<Dmi, Fatal>)
    ensures !ti.maskAddr || !status ==> r == Ok(dmi)
    ensures ti.maskAddr && status ==> (r.Ok? <==> dmi.start < ti.size && dmi.end < ti.size)
    ensures r.Ok? && ti.maskAddr && status ==> r.value == Dmi(ti.address + dmi.start, ti.address + dmi.end, dmi.access)
  {
    if status then ComposeWindowAsWritten(ti, status, dmi) else Ok(dmi)
  }

  /** A masked target that refuses DMI and leaves the descriptor as initialised stops the simulation. */
  lemma RefusalTripsCompose(ti: TargetInfo)
    requires ti.maskAddr && ti.size <= MaxAddress
    ensures ComposeWindowAsWritten(ti, false, DefaultDmi) == Err(ComposeOutOfRange)
  {
  }

  /** With the intended window, a refusal never stops the simulation, and a granted in-range window lands inside the target. */
  lemma {:induction false} WindowTranslated(ti: TargetInfo, status: bool, dmi: Dmi)
    requires ti.maskAddr
    ensures !status ==> ComposeWindow(ti, status, dmi) == Ok(dmi)
    ensures status && dmi.start <= dmi.end < ti.size ==>
      var w := ComposeWindow(ti, status, dmi).value;
      Matches(ti, w.start) && Matches(ti, w.end) && w.end - w.start == dmi.end - dmi.start
  {
    if status && dmi.start <= dmi.end < ti.size {
      var w := ComposeWindow(ti, status, dmi).value;
      assert w.start == ti.address + dmi.start && w.end == ti.address + dmi.end;
    }
  }

  /**
   * What the targets behind the initiator sockets answer, as functions of
   * the socket index and the address they see: the response of
   * `b_transport`, the result of `transport_dbg`, and the status and
   * descriptor of `get_direct_mem_ptr` given the descriptor handed in.
   */
  datatype Downstream = Downstream(
    bTransport: (nat, nat) -> Response,
    transportDbg: (nat, nat) -> (nat, Response),
    getDirectMemPtr: (nat, nat, Dmi) -> (bool, Dmi))

  /** A forwarded `b_transport`: the target socket, the address it saw and the path stamped on the transaction. */
  datatype Forward = Forward(target: nat, address: nat, path: seq<int>)

  /** An invalidation sent back through target socket `socket`. */
  datatype Invalidation = Invalidation(socket: nat, start: nat, end: nat)

  class Router {
    const down: Downstream
    var targets: seq<TargetInfo>               // targets
    var pool: seq<PathIdExtension>             // m_pathIDPool
    var initiators: nat                        // target_socket.size()
    var presetAddress: map<string, nat>        // "<name>.address" presets
    var presetSize: map<string, nat>           // "<name>.size" presets
    var presetRelative: map<string, bool>      // "<name>.relative_addresses" presets
    var forwarded: seq<Forward>                // the b_transport calls made downstream
    var invalidations: seq<Invalidation>       // the invalidations sent upstream

    /**
     * Rows carry their own position as index, and the pool holds distinct,
     * empty extensions.
     */
    ghost predicate Valid()
      reads this, pool
    {
      && (forall i :: 0 <= i < |targets| ==> targets[i].index == i)
      && (forall i :: 0 <= i < |pool| ==> pool[i].ids == [])
      && (forall i, j :: 0 <= i < j < |pool| ==> pool[i] != pool[j])
    }

    /** The extension a transaction may carry into the router: none, or one the pool does not hold. */
    ghost predicate Owns(ext: PathIdExtension?)
      reads this
    {
      ext == null || ext !in pool
    }

    constructor (down: Downstream, presetAddress: map<string, nat>, presetSize: map<string, nat>,
                 presetRelative: map<string, bool>)
      ensures this.down == down && targets == [] && pool == [] && initiators == 0
      ensures this.presetAddress == presetAddress && this.presetSize == presetSize
      ensures this.presetRelative == presetRelative
      ensures forwarded == [] && invalidations == [] && Valid()
    {
      this.down := down;
      targets := [];
      pool := [];
      initiators := 0;
      this.presetAddress := presetAddress;
      this.presetSize := presetSize;
      this.presetRelative := presetRelative;
      forwarded := [];
      invalidations := [];
    }

    /** `register_boundto`: a new row, named after the bound socket, at the next index; its range is set at elaboration. */
    method RegisterBoundto(name: string)
      requires Valid()
      modifies this`targets
      ensures Valid()
      ensures targets == old(targets) + [TargetInfo(|old(targets)|, name, 0, 0, false)]
    {
      targets := targets + [TargetInfo(|targets|, name, 0, 0, false)];
    }

    /** `add_target`: preset the target's address, size and masking unless already configured, then bind it. */
    method AddTarget(name: string, address: nat, size: nat, masked: bool)
      requires Valid()
      modifies this`targets, this`presetAddress, this`presetSize, this`presetRelative
      ensures Valid()
      ensures targets == old(targets) + [TargetInfo(|old(targets)|, name, 0, 0, false)]
      ensures presetAddress == if name in old(presetAddress) then old(presetAddress) else old(presetAddress)[name := address]
      ensures presetSize == if name in old(presetSize) then old(presetSize) else old(presetSize)[name := size]
      ensures presetRelative == if name in old(presetRelative) then old(presetRelative) else old(presetRelative)[name := masked]
    {
      if name !in presetAddress {
        presetAddress := presetAddress[name := address];
      }
      if name !in presetSize {
        presetSize := presetSize[name := size];
      }
      if name !in presetRelative {
        presetRelative := presetRelative[name := masked];
      }
      RegisterBoundto(name);
    }

    /** `add_initiator`: one more target socket. */
    method AddInitiator()
      modifies this`initiators
      ensures initiators == old(initiators) + 1
    {
      initiators := initiators + 1;
    }

    /** A row with its range and masking as configured; masking defaults to on. */
    function Configured(ti: TargetInfo): TargetInfo
      reads this
      requires ti.name in presetAddress && ti.name in presetSize
    {
      ti.(address := presetAddress[ti.name], size := presetSize[ti.name],
          maskAddr := if ti.name in presetRelative then presetRelative[ti.name] else true)
    }

    /**
     * `before_end_of_elaboration`: configure every row from the presets, in
     * order; a row without an address or size preset is an error that stops
     * the simulation.
     */
    method BeforeEndOfElaboration() returns (outcome: Outcome)
      requires Valid()
      modifies this`targets
      ensures Valid() && |targets| == |old(targets)|
      ensures outcome.Done? <==> forall i :: 0 <= i < |old(targets)| ==>
        old(targets)[i].name in presetAddress && old(targets)[i].name in presetSize
      ensures outcome.Abort? ==> outcome.reason == MissingTargetConfig
      ensures outcome.Done? ==> forall i :: 0 <= i < |targets| ==> targets[i] == Configured(old(targets)[i])
    {
      var i := 0;
      while i < |targets|
        invariant i <= |targets| == |old(targets)| && Valid()
        invariant forall j :: 0 <= j < |targets| ==> targets[j].name == old(targets)[j].name
        invariant forall j :: 0 <= j < i ==> old(targets)[j].name in presetAddress && old(targets)[j].name in presetSize
        invariant forall j :: 0 <= j < i ==> targets[j] == Configured(old(targets)[j])
        invariant forall j :: i <= j < |targets| ==> targets[j] == old(targets)[j]
      {
        var ti := targets[i];
        if ti.name !in presetAddress || ti.name !in presetSize {
          return Abort(MissingTargetConfig);
        }
        targets := targets[i := Configured(ti)];
        i := i + 1;
      }
      outcome := Done;
    }

    /** `decode_address`: a scan of the table in bind order for the first row that holds `a`. */
    method DecodeAddress(a: nat) returns (r: Option<nat>)
      ensures r.Some? ==> r.value < |targets| && Matches(targets[r.value], a)
      ensures r.Some? ==> forall j :: 0 <= j < r.value ==> !Matches(targets[j], a)
      ensures r.None? ==> forall j :: 0 <= j < |targets| ==> !Matches(targets[j], a)
      ensures r == FirstMatch(targets, a)
    {
      var i := 0;
      while i < |targets|
        invariant i <= |targets|
        invariant forall j :: 0 <= j < i ==> !Matches(targets[j], a)
      {
        if targets[i].address <= a && a < targets[i].address + targets[i].size {
          FirstMatchUnique(targets, a, i);
          return Some(i);
        }
        i := i + 1;
      }
      r := None;
    }

    /**
     * `stamp_txn`: push `id` on the transaction's path, first attaching an
     * extension taken from the pool (its last one) or, when the pool is
     * empty, a new one.
     */
    method Stamp(id: int, txn: GenericPayload)
      requires Valid() && Owns(txn.pathId)
      modifies this`pool, txn`pathId, pool, if txn.pathId == null then {} else {txn.pathId}
      ensures Valid() && txn.pathId != null && Owns(txn.pathId)
      ensures txn.pathId.ids == (if old(txn.pathId) == null then [] else old(txn.pathId.ids)) + [id]
      ensures old(txn.pathId) != null ==> txn.pathId == old(txn.pathId) && pool == old(pool)
      ensures old(txn.pathId) == null && |old(pool)| > 0 ==>
        txn.pathId == old(pool)[|old(pool)| - 1] && pool == old(pool)[.. |old(pool)| - 1]
      ensures old(txn.pathId) == null && |old(pool)| == 0 ==> fresh(txn.pathId) && pool == []
    {
      var ext := txn.pathId;
      if ext == null {
        if |pool| == 0 {
          ext := new PathIdExtension();
        } else {
          ext := pool[|pool| - 1];
          pool := pool[.. |pool| - 1];
        }
        txn.pathId := ext;
      }
      ext.ids := ext.ids + [id];
    }

    /**
     * `unstamp_txn`: the path must be present with `id` on top; pop it, and
     * when the path is then empty detach the extension and return it to the
     * pool.
     */
    method Unstamp(id: int, txn: GenericPayload) returns (outcome: Outcome)
      requires Valid() && Owns(txn.pathId)
      modifies this`pool, txn`pathId, if txn.pathId == null then {} else {txn.pathId}
      ensures Valid() && Owns(txn.pathId)
      ensures outcome.Done? <==> old(txn.pathId) != null && old(txn.pathId.ids) != [] && Last(old(txn.pathId.ids)) == id
      ensures outcome.Abort? ==> outcome.reason == PathMismatch && txn.pathId == old(txn.pathId) && pool == old(pool)
      ensures outcome.Abort? && txn.pathId != null ==> txn.pathId.ids == old(txn.pathId.ids)
      ensures outcome.Done? ==>
        var ext := old(txn.pathId);
        && ext.ids == old(ext.ids)[.. |old(ext.ids)| - 1]
        && (ext.ids == [] ==> txn.pathId == null && pool == old(pool) + [ext])
        && (ext.ids != [] ==> txn.pathId == ext && pool == old(pool))
    {
      var ext := txn.pathId;
      if ext == null || ext.ids == [] || ext.ids[|ext.ids| - 1] != id {
        return Abort(PathMismatch);
      }
      ext.ids := ext.ids[.. |ext.ids| - 1];
      if ext.ids == [] {
        txn.pathId := null;
        pool := pool + [ext];
      }
      outcome := Done;
    }

    /**
     * `b_transport` from target socket `id`: an unmapped address is answered
     * with an address error and goes nowhere; otherwise the transaction is
     * stamped, forwarded (masked targets see the offset into their range),
     * its address restored and the stamp removed.
     */
    method BTransport(id: int, txn: GenericPayload)
      requires Valid() && Owns(txn.pathId)
      modifies this`pool, this`forwarded, pool, txn`pathId, txn`address, txn`response
      modifies if txn.pathId == null then {} else {txn.pathId}
      ensures Valid() && Owns(txn.pathId) && txn.address == old(txn.address)
      ensures var arrived, path := old(txn.pathId), if old(txn.pathId) == null then [] else old(txn.pathId.ids);
        var r := FirstMatch(targets, old(txn.address));
        && (r.None? ==> && txn.response == AddressErrorResponse && forwarded == old(forwarded)
                        && pool == old(pool) && txn.pathId == arrived && (arrived != null ==> arrived.ids == path))
        && (r.Some? ==>
              var seen := Seen(targets[r.value], old(txn.address));
              && txn.response == down.bTransport(r.value, seen)
              && forwarded == old(forwarded) + [Forward(r.value, seen, path + [id])]
              && (arrived != null ==> arrived.ids == path)
              && txn.pathId == (if path == [] then null else arrived)
              && (arrived != null && path != [] ==> pool == old(pool))
              && (arrived != null && path == [] ==> pool == old(pool) + [arrived])
              && (arrived == null && |old(pool)| > 0 ==> pool == old(pool))
              && (arrived == null && |old(pool)| == 0 ==> |pool| == 1))
    {
      var r := DecodeAddress(txn.address);
      if r.None? {
        txn.response := AddressErrorResponse;
        return;
      }
      StampedForward(id, targets[r.value], txn);
    }

    /**
     * The forwarding part of `b_transport` once `ti` is decoded: stamp, mask
     * the address, forward, restore the address and unstamp.
     */
    method StampedForward(id: int, ti: TargetInfo, txn: GenericPayload)
      requires Valid() && Owns(txn.pathId) && Matches(ti, txn.address)
      modifies this`pool, this`forwarded, pool, txn`pathId, txn`address, txn`response
      modifies if txn.pathId == null then {} else {txn.pathId}
      ensures Valid() && Owns(txn.pathId) && txn.address == old(txn.address)
      ensures var arrived, path := old(txn.pathId), if old(txn.pathId) == null then [] else old(txn.pathId.ids);
        var seen := Seen(ti, old(txn.address));
        && txn.response == down.bTransport(ti.index, seen)
        && forwarded == old(forwarded) + [Forward(ti.index, seen, path + [id])]
        && (arrived != null ==> arrived.ids == path)
        && txn.pathId == (if path == [] then null else arrived)
        && (arrived != null && path != [] ==> pool == old(pool))
        && (arrived != null && path == [] ==> pool == old(pool) + [arrived])
        && (arrived == null && |old(pool)| > 0 ==> pool == old(pool))
        && (arrived == null && |old(pool)| == 0 ==> |pool| == 1)
    {
      var addr := txn.address;
      ghost var path := if txn.pathId == null then [] else txn.pathId.ids;
      Stamp(id, txn);
      var stamped := txn.pathId.ids;
      assert stamped == path + [id];
      if ti.maskAddr {
        txn.address := addr - ti.address;
      }
      forwarded := forwarded + [Forward(ti.index, txn.address, stamped)];
      txn.response := down.bTransport(ti.index, txn.address);
      if ti.maskAddr {
        txn.address := addr;
      }
      var outcome := Unstamp(id, txn);
      assert outcome.Done?;
    }

    /**
     * `transport_dbg` from target socket `id`: like `b_transport` without the
     * stamp; an unmapped address is answered with an address error and 0.
     */
    method TransportDbg(id: int, txn: GenericPayload) returns (count: nat)
      requires Valid()
      modifies txn`address, txn`response
      ensures txn.address == old(txn.address)
      ensures var r := FirstMatch(targets, old(txn.address));
        && (r.None? ==> count == 0 && txn.response == AddressErrorResponse)
        && (r.Some? ==>
              (count, txn.response) == down.transportDbg(r.value, Seen(targets[r.value], old(txn.address))))
    {
      var addr := txn.address;
      var r := DecodeAddress(addr);
      if r.None? {
        txn.response := AddressErrorResponse;
        return 0;
      }
      var ti := targets[r.value];
      if ti.maskAddr {
        txn.address := addr - ti.address;
      }
      var answer := down.transportDbg(ti.index, txn.address);
      count, txn.response := answer.0, answer.1;
      if ti.maskAddr {
        txn.address := addr;
      }
    }

    /**
     * `get_direct_mem_ptr` from target socket `id`: an unmapped address is
     * refused and nothing changes; otherwise the target is asked and, for a
     * masked target, the window it grants is translated back into the
     * router's space (see `ComposeWindowAsWritten` for the code as written).
     */
    method GetDirectMemPtr(id: int, txn: GenericPayload, dmi: Dmi) returns (outcome: Outcome, status: bool, dmi': Dmi)
      requires Valid()
      modifies txn`address
      ensures txn.address == old(txn.address)
      ensures var r := FirstMatch(targets, old(txn.address));
        && (r.None? ==> outcome.Done? && !status && dmi' == dmi)
        && (r.Some? ==>
              var ti := targets[r.value];
              var answer := down.getDirectMemPtr(r.value, Seen(ti, old(txn.address)), dmi);
              var window := ComposeWindow(ti, answer.0, answer.1);
              && (outcome.Done? <==> window.Ok?)
              && (window.Ok? ==> status == answer.0 && dmi' == window.value)
              && (window.Err? ==> outcome == Abort(window.error)))
    {
      dmi' := dmi;
      var addr := txn.address;
      var r := DecodeAddress(addr);
      if r.None? {
        return Done, false, dmi';
      }
      var ti := targets[r.value];
      if ti.maskAddr {
        txn.address := addr - ti.address;
      }
      var answer := down.getDirectMemPtr(ti.index, txn.address, dmi);
      status := answer.0;
      if ti.maskAddr {
        txn.address := addr;
      }
      var window := ComposeWindow(ti, answer.0, answer.1);
      if window.Err? {
        return Abort(window.error), false, dmi';
      }
      outcome, dmi' := Done, window.value;
    }

    /**
     * `invalidate_direct_mem_ptr` from initiator socket `id`: translate the
     * range back into the router's space when that target is masked, then
     * pass it to every target socket in order.
     */
    method InvalidateDirectMemPtr(id: nat, start: nat, end: nat) returns (outcome: Outcome)
      requires id < |targets|
      modifies this`invalidations
      ensures var ti := targets[id];
        var s := if ti.maskAddr then Compose(ti, start) else Ok(start);
        var e := if ti.maskAddr then Compose(ti, end) else Ok(end);
        && (outcome.Done? <==> s.Ok? && e.Ok?)
        && (outcome.Abort? ==> outcome.reason == ComposeOutOfRange && invalidations == old(invalidations))
        && (outcome.Done? ==> invalidations == old(invalidations) + Broadcast(initiators, s.value, e.value))
    {
      var s, e := start, end;
      if targets[id].maskAddr {
        var cs := Compose(targets[id], start);
        var ce := Compose(targets[id], end);
        if cs.Err? || ce.Err? {
          return Abort(ComposeOutOfRange);
        }
        s, e := cs.value, ce.value;
      }
      var i := 0;
      while i < initiators
        invariant i <= initiators
        invariant invalidations == old(invalidations) + Broadcast(i, s, e)
      {
        invalidations := invalidations + [Invalidation(i, s, e)];
        i := i + 1;
      }
      outcome := Done;
    }
  }

  /** The top of a non-empty path. */
  function Last(ids: seq<int>): int
    requires ids != []
  {
    ids[|ids| - 1]
  }

  /** The invalidations of `[start, end]` to target sockets `0 .. n - 1`, in order. */
  function Broadcast(n: nat, start: nat, end: nat): (r: seq<Invalidation>)
    ensures |r| == n
    ensures forall i :: 0 <= i < n ==> r[i] == Invalidation(i, start, end)
  {
    if n == 0 then [] else Broadcast(n - 1, start, end) + [Invalidation(n - 1, start, end)]
  }

  /** The first match is the only index with a match and none before it. */
  lemma FirstMatchUnique(ts: seq<TargetInfo>, a: nat, i: nat)
    requires i < |ts| && Matches(ts[i], a) && forall j :: 0 <= j < i ==> !Matches(ts[j], a)
    ensures FirstMatch(ts, a) == Some(i)
  {
  }
}

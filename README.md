# A verified model of the qbox memory, router and QUPv3 UART

This project models three components of the qbox SystemC/TLM-2.0 platform and proves properties of them. Transactions use the shapes of the TLM-2.0 generic payload, direct-memory (DMI) and debug interfaces of IEEE 1666-2011, clauses 11 and 14.

- **The memory (`gs::Memory`)**, in `subblock.dfy` and `memory.dfy`.
  - The memory keeps its bytes in a lazily allocated tree of blocks (`SubBlock<N>`, fan-out 4).
  - A block longer than the maximum block size splits. Otherwise it is allocated on first touch: the backing file is mapped when one is configured, else there is an aligned allocation and then a plain one.
  - A block whose allocation fails splits too. Below the minimum block size that failure is fatal.
  - The memory serves `b_transport` (reads, writes, byte enables, read-only refusal), `transport_dbg` and `get_direct_mem_ptr` (the DMI window is the leaf that holds the address).
  - It checks relative or absolute addresses against its size.
- **The router (`gs::Router`)**, in `router.dfy`.
  - It decodes an address against its target table (first match in bind order).
  - For the duration of a forward, it masks the target's base off the address.
  - It stamps each forwarded transaction with the id of the socket it came in on. The path stack lives in an extension object; emptied extensions go to a free pool for reuse.
  - It translates DMI windows and invalidation ranges back into its own address space.
- **The QUPv3 UART register model (`QUPv3`)**, in `uart.dfy`.
  - A register map that software drives through 4-byte bus accesses.
  - The transmit handshake: arm the command register, set a length, then push up to four bytes per FIFO write.
  - Write-to-clear interrupt status registers and read-to-clear receive registers.

`wrappers.dfy` holds `Option`/`Result`. `tlm.dfy` holds the generic payload, the DMI descriptor and the outcomes. The memory, the router and the UART are classes whose methods update their fields in place. Their loops carry invariants, and their contracts are tied to specification functions and predicates. Examples are `FirstMatch`, `Compose`, `Stored`/`Holds`/`KeepsOutside` over the block tree, `ReadBack`/`WrittenBack` for byte-enabled transfers, and `Emitted`/`TxCount` for the transmit FIFO.

The block tree is a value (`SubBlocks.Node`). `SubBlock::access` is the pure function `SubBlocks.Access`, which returns the updated tree together with the leaf that holds the address. The copy into a leaf that `write_sub_blocks` makes through a reference is the pair `SubBlocks.WriteSubBlocks` (the new leaf) and `SubBlocks.PutLeaf` (the leaf put back in place).

## Model

| member | source | states |
|---|---|---|
| SubBlocks.Allocate | include/greensocs/base-components/memory.h:137-160 | a configured file that does not open is fatal (`BackingFileMissing`) and nothing else is; storage exists exactly when the mapping succeeds (file configured) or the aligned or plain allocation succeeds (no file); the buffer has the block's length and, when mapped, holds the file's bytes |
| SubBlocks.Access | include/greensocs/base-components/memory.h:125-172 | on success the new tree is valid, has the same range, and its leaf for `a` is the returned leaf; every leaf that existed is unchanged; every newly allocated leaf is the returned one; a node longer than the maximum size is split; a node whose leaf already exists is returned untouched; an untouched node within the maximum size whose allocation succeeds becomes the returned leaf; failures are only BackingFileMissing, OutOfMemory or UnevenSplit (their causes: `AccessOutcome`) |
| SubBlocks.AccessOutcome | include/greensocs/base-components/memory.h:125-172 | with `StopsAt` the node where the descent ends: OutOfMemory exactly when that node must split and is below the minimum size; UnevenSplit exactly when it must split and its length is not a multiple of 4; BackingFileMissing exactly when it must allocate and its file does not open; success exactly otherwise, returning the leaf it held or the buffer it was just given |
| SubBlocks.SlotChildFacts | include/greensocs/base-components/memory.h:164-171 | the child slot an access descends into (present, or created at `address + i * len/4` with length `len/4`) is valid, holds the address and is shorter than its parent |
| SubBlocks.LeafAt | include/greensocs/base-components/memory.h:125-172 | a leaf found for `k` is an allocated leaf whose range contains `k` |
| SubBlocks.ChildSelects | include/greensocs/base-components/memory.h:164-165 | every address of child slot `i` yields the index `(k - address) / (len >> 2) == i` |
| SubBlocks.ChildInside | include/greensocs/base-components/memory.h:163-170 | child `i` at `address + i * (len >> 2)` with length `len >> 2` lies inside its parent |
| SubBlocks.ChildSelectsBack | include/greensocs/base-components/memory.h:164-169 | the child the computed index selects contains the address |
| SubBlocks.LeafAtNested | include/greensocs/base-components/memory.h:125-172 | the leaf that holds `k` lies inside the tree, is valid, and every address of its range resolves to it |
| SubBlocks.LookupInLeaf | include/greensocs/base-components/memory.h:174-193 | inside a leaf's range, the tree and the leaf hold the same bytes |
| SubBlocks.RebuiltValid | include/greensocs/base-components/memory.h:167-171 | putting a valid child back in its slot keeps the tree valid |
| SubBlocks.RebuiltLeafAt | include/greensocs/base-components/memory.h:167-171 | after the child slot is replaced, addresses of that slot resolve through the new child and all other addresses resolve as before |
| SubBlocks.AccessKeepsBytes | include/greensocs/base-components/memory.h:125-172 | an access never changes a byte that was already stored |
| SubBlocks.ReadSubBlocks | include/greensocs/base-components/memory.h:174-182 | exactly `min(len, m_len - (offset - m_address))` bytes are copied, at least one when `len > 0`, each the leaf's byte at its offset |
| SubBlocks.WriteSubBlocks | include/greensocs/base-components/memory.h:184-193 | the count is `min(len, m_len - (offset - m_address))`, at least one when `len > 0`; the leaf keeps its range and length, holds `data[..count]` from `offset`, and every other byte is unchanged |
| SubBlocks.PutLeaf | include/greensocs/base-components/memory.h:184-193 | writing through the leaf reference: the tree stays valid with the same range; addresses in the leaf's range resolve to the new leaf, all others as before |
| SubBlocks.PutLeafLookup | include/greensocs/base-components/memory.h:184-193 | after the leaf is put back, bytes in its range are the new leaf's and all other bytes are unchanged |
| MemoryModel.AdmitAccess | include/greensocs/base-components/memory.h:296-306 | an access is admitted exactly when (relative mode, or the address is not below the base) and offset + len <= size; the admitted offset plus the base (absolute mode) is the bus address |
| MemoryModel.AdmittedInBounds | include/greensocs/base-components/memory.h:296-306 | every admitted access ends at or before the end of the memory |
| MemoryModel.LastByteTripsAssertion | include/greensocs/base-components/memory.h:373 | a one-byte access to the last byte is admitted by the transport guard (memory.h line 303) but violates the bound `offset + len < m_size` that `read`/`write` assert |
| MemoryModel.Memory.constructor | include/greensocs/base-components/memory.h:423-453 | a non-zero constructor size becomes the size preset unless one is configured; no storage, size 0, base not yet read |
| MemoryModel.Memory.Size | include/greensocs/base-components/memory.h:491-504 | the size is read once from the configuration; a missing size when none is known is the fatal MissingSize; otherwise the known size is kept |
| MemoryModel.Memory.Base | include/greensocs/base-components/memory.h:511-527 | the base is read once; a missing preset reads as 0; afterwards the base is fixed |
| MemoryModel.Memory.BeforeEndOfElaboration | include/greensocs/base-components/memory.h:455-477 | a no-op once the root exists; otherwise fixes base and size, creates an empty root over `[0, size)` and sets relative addressing from its preset, default true; fails only with MissingSize |
| MemoryModel.Memory.Prepare | include/greensocs/base-components/memory.h:361-373 | elaborates when needed and succeeds exactly when elaborated and the request lies within the memory; no stored byte is lost |
| MemoryModel.Memory.Read | include/greensocs/base-components/memory.h:361-384 | on success `data[at..at+len]` holds exactly the stored bytes of `[offset, offset+len)`; every byte stored before is still stored; other data bytes are unchanged; the bound failure happens exactly when the request exceeds the memory |
| MemoryModel.Memory.Write | include/greensocs/base-components/memory.h:385-404 | on success `[offset, offset+len)` holds `data[at..at+len]`; every byte stored outside that range keeps its value, whether or not the call succeeds; the bound failure happens exactly when the request exceeds the memory |
| MemoryModel.ReadAfterWrite | include/greensocs/base-components/memory.h:361-404 | reading back a written range, with nothing overwritten since, yields exactly the written bytes |
| MemoryModel.Memory.WriteThenRead | include/greensocs/base-components/memory.h:361-404 | a `write` of `src[..len]` then a `read` of the same range into `dst` gives `dst[..len] == src[..len]` |
| MemoryModel.ReadRound | include/greensocs/base-components/memory.h:375-381 | one loop round of `read` hands out between 1 and the remaining bytes, all stored at their offsets, and keeps every stored byte |
| MemoryModel.WriteRound | include/greensocs/base-components/memory.h:395-401 | one loop round of `write` stores between 1 and the remaining bytes and keeps every byte outside them |
| MemoryModel.ReadStep | include/greensocs/base-components/memory.h:376-378 | bytes copied out of the accessed leaf are stored in the updated tree, which keeps every earlier byte |
| MemoryModel.WriteStep | include/greensocs/base-components/memory.h:396-398 | the leaf written and put back stores the copied prefix and keeps every byte outside it |
| MemoryModel.ReadAdvance | include/greensocs/base-components/memory.h:375-382 | a read round extends the copied prefix of `data` by the chunk handed out (loop progress) |
| MemoryModel.WriteAdvance | include/greensocs/base-components/memory.h:395-402 | a write round extends the stored prefix by the bytes written and keeps every byte outside the request (loop progress) |
| MemoryModel.Memory.BTransport | include/greensocs/base-components/memory.h:264-340 | address error, with nothing changed, exactly when the address check fails; command error, with nothing written, for a write to a read-only memory; for reads, every enabled byte `i` (`byt[i % bel]` enabled) is the stored byte and the others keep their value; for writes, exactly the enabled bytes are stored and every other stored byte is unchanged; response OK and the DMI hint when allowed; a command neither read nor write is fatal |
| MemoryModel.Memory.ReadPayload | include/greensocs/base-components/memory.h:308-317 | with or without byte enables the read satisfies `ReadBack` and keeps every stored byte |
| MemoryModel.Memory.WritePayload | include/greensocs/base-components/memory.h:318-330 | with or without byte enables the write satisfies `WrittenBack` |
| MemoryModel.Memory.ReadEnabled | include/greensocs/base-components/memory.h:310-313 | the byte-enabled loop reads exactly the enabled bytes and leaves the others as they were |
| MemoryModel.Memory.WriteEnabled | include/greensocs/base-components/memory.h:323-326 | the byte-enabled loop stores exactly the enabled bytes and keeps all other stored bytes |
| MemoryModel.HoldsReadBack | include/greensocs/base-components/memory.h:314-315 | a whole-range read is a byte-enabled read with every byte enabled |
| MemoryModel.HoldsWrittenBack | include/greensocs/base-components/memory.h:327-328 | a whole-range write is a byte-enabled write with every byte enabled |
| MemoryModel.ReadBackStep | include/greensocs/base-components/memory.h:311-313 | one single-byte read at an enabled position extends the byte-enabled read by one position |
| MemoryModel.WrittenBackStep | include/greensocs/base-components/memory.h:324-326 | each position, enabled or not, extends the byte-enabled write by one position |
| MemoryModel.Memory.TransportDbg | include/greensocs/base-components/memory.h:342-351 | returns the data length when the response is OK and 0 otherwise; OK exactly when the address is admitted and the access is not a write to a read-only memory |
| MemoryModel.DmiWindow | include/greensocs/base-components/memory.h:244-257 | the granted leaf holds the address, lies within the memory, is fully stored, and the access kept every byte |
| MemoryModel.Memory.GetDirectMemPtr | include/greensocs/base-components/memory.h:215-262 | refused with nothing changed when DMI is disabled; address error when the address is outside the memory (always so before elaboration, when the size is still 0); elaboration is neither created nor lost; otherwise grants exactly `[l.address, l.address + l.len - 1]` for `l` the leaf that holds the address in the new tree, shifted by the base in absolute mode; the window contains the address, lies inside the memory, has every byte stored, and is read-only exactly for a read-only memory |
| RouterModel.FirstMatch | include/greensocs/base-components/router.h:246-255 | the result is the first row in bind order whose range holds the address, and None exactly when no row does |
| RouterModel.FirstMatchUnique | include/greensocs/base-components/router.h:246-255 | a matching row with no match before it is the decoded one |
| RouterModel.Router.DecodeAddress | include/greensocs/base-components/router.h:246-255 | the scan returns the first matching row in bind order, or None when no row matches, i.e. `FirstMatch` |
| RouterModel.Compose | include/greensocs/base-components/router.h:257-262 | succeeds exactly when the offset is below the target's size, giving an address inside the target at that offset; otherwise the assertion fails |
| RouterModel.MaskComposeRoundTrip | include/greensocs/base-components/router.h:257-262 | composing the masked offset a target sees gives back the bus address |
| RouterModel.ComposeDecodes | include/greensocs/base-components/router.h:246-262 | a composed address decodes to that target or to an earlier overlapping one |
| RouterModel.ComposeWindowAsWritten | include/greensocs/base-components/router.h:220-227 | for a masked target both window ends are composed whatever the target answered; success exactly when both ends lie below the target's size |
| RouterModel.RefusalTripsCompose | include/greensocs/base-components/router.h:220-227 | a masked target that refuses DMI and leaves the descriptor as initialised (end 2^64-1) trips the compose assertion (router.h line 260) |
| RouterModel.ComposeWindow | include/greensocs/base-components/router.h:220-227 | only a granted window of a masked target is translated, both ends by the target's base; a refusal passes through unchanged |
| RouterModel.WindowTranslated | include/greensocs/base-components/router.h:220-227 | with the corrected window a refusal never fails, and a granted in-range window lands inside the target with its length preserved |
| RouterModel.Router.constructor | include/greensocs/base-components/router.h:317-325 | the router starts with no targets, an empty pool and no target sockets |
| RouterModel.Router.RegisterBoundto | include/greensocs/base-components/router.h:92-99 | a bound socket appends one row named after it whose index is its position |
| RouterModel.Router.AddTarget | include/greensocs/base-components/router.h:339-356 | presets address, size and masking unless already configured, then binds the target (one new row) |
| RouterModel.Router.AddInitiator | include/greensocs/base-components/router.h:358-363 | one more target socket |
| RouterModel.Router.BeforeEndOfElaboration | include/greensocs/base-components/router.h:265-311 | every row takes its address and size from the presets, masking from its preset with default true; it fails with MissingTargetConfig exactly when some row has no address or size preset |
| RouterModel.Router.Stamp | include/greensocs/base-components/router.h:114-131 | pushes `id` on the path; a transaction without an extension takes the pool's last one, or a new one when the pool is empty |
| RouterModel.Router.Unstamp | include/greensocs/base-components/router.h:132-146 | succeeds exactly when an extension with `id` on top is present, and pops it; an emptied extension is detached and returned to the pool |
| RouterModel.Router.BTransport | include/greensocs/base-components/router.h:148-189 | an unmapped address gets an address error with no stamp and no forward; otherwise one forward to the first matching target at the masked address with the path extended by the incoming id; the address is restored, the path is as it arrived, and a transaction that arrived without an extension leaves without one, the pool unchanged unless it was empty (then one extension) |
| RouterModel.Router.StampedForward | include/greensocs/base-components/router.h:180-188 | stamp, masked forward, restore and unstamp, with the path and pool as above |
| RouterModel.Router.TransportDbg | include/greensocs/base-components/router.h:191-206 | an unmapped address gets an address error and 0; otherwise the target's answer at the masked address, with the address restored |
| RouterModel.Router.GetDirectMemPtr | include/greensocs/base-components/router.h:208-229 | an unmapped address is refused with the descriptor unchanged; otherwise the target's status with the window translated back for masked targets; the address is restored |
| RouterModel.Router.InvalidateDirectMemPtr | include/greensocs/base-components/router.h:231-244 | the range is composed when that target is masked and passed unchanged otherwise, then sent to every target socket in order |
| RouterModel.Broadcast | include/greensocs/base-components/router.h:241-243 | one invalidation per target socket `0 .. n-1`, in order, each with the same range |
| Qupv3Uart.StoreLE | include/qup/uart/uart-qupv3.h:136-139 | the four bytes of a register value, least significant first (little-endian memcpy) |
| Qupv3Uart.LoadStore | include/qup/uart/uart-qupv3.h:133-139 | loading the four bytes stored for a value gives the value back |
| Qupv3Uart.StoreLoad | include/qup/uart/uart-qupv3.h:133-139 | storing the value loaded from four bytes gives the bytes back |
| Qupv3Uart.Emitted | include/qup/uart/uart-qupv3.h:234-239 | the bytes sent for a count are a prefix of the value's four bytes in memory order |
| Qupv3Uart.EmittedPrefix | include/qup/uart/uart-qupv3.h:234-239 | the bytes sent for a count `n` are exactly the first `n` bytes of the value in memory order, so `n` bytes go out |
| Qupv3Uart.EmittedStep | include/qup/uart/uart-qupv3.h:235-238 | each loop iteration appends byte `count` of the value, `(value >> (count * 8)) & 0xff` |
| Qupv3Uart.Cleared | include/qup/uart/uart-qupv3.h:217-227 | `status & ~value` clears exactly the written bits: none of them stays set, every other bit keeps its value |
| Qupv3Uart.TxCount | include/qup/uart/uart-qupv3.h:234-240 | a FIFO write sends all remaining bytes, at most four |
| Qupv3Uart.LoopSendsTxCount | include/qup/uart/uart-qupv3.h:234-240 | the loop stops after exactly `TxCount(len)` bytes, leaving `len - TxCount(len)` |
| Qupv3Uart.Qupv3.constructor | include/qup/uart/uart-qupv3.h:85-116 | the register map at reset: all zero except FW revision 0x2ff and the two hardware parameters |
| Qupv3Uart.Qupv3.Update | include/qup/uart/uart-qupv3.h:146-151 | the update event is notified exactly when the M status equals M_CMD_DONE or the S status equals RX_FIFO_LAST |
| Qupv3Uart.Qupv3.Read | include/qup/uart/uart-qupv3.h:158-204 | through `ReadGave`: status and parameter registers read their value; RX FIFO and RX FIFO status return their value and are reset to 0; reading the S status lowers the interrupt line; TX FIFO status reads 0; FW revision and hardware parameters read their fixed values; no other register, the output line and the update count do not change |
| Qupv3Uart.Qupv3.Write | include/qup/uart/uart-qupv3.h:206-278 | through `Wrote`: the command register latches only 0x08000000 and only when idle; the clear registers clear exactly the written bits (the M one also lowers the interrupt line); a length of 0 is refused; an armed FIFO write sends `TxCount(len)` bytes and, when none remain, ends the transmission and runs the update; an unarmed one changes nothing; every listed or unknown other offset changes nothing; the read-only registers keep their values |
| Qupv3Uart.Qupv3.PushTx | include/qup/uart/uart-qupv3.h:231-248 | the line gets the first `min(4, len)` bytes of the value, least significant first; the length drops by that many; when it reaches 0 the command returns to idle, M_CMD_DONE is OR-ed into the M status and the update is notified when it raises |
| Qupv3Uart.Qupv3.SendBytes | include/qup/uart/uart-qupv3.h:234-240 | the send loop: the line gets `Emitted(value, TxCount(len))` and the length register `len - TxCount(len)` |
| Qupv3Uart.Qupv3.CompleteTx | include/qup/uart/uart-qupv3.h:243-248 | command register to 0, M_CMD_DONE OR-ed into the M status, then the update check |
| Qupv3Uart.Qupv3.PutFifo | include/qup/uart/uart-qupv3.h:284-289 | RX FIFO := value, S status := RX_FIFO_LAST, RX FIFO status := RX_LAST \| RX_LAST_BYTE_VALID, then the update event is notified |
| Qupv3Uart.Qupv3.Receive | include/qup/uart/uart-qupv3.h:288-294 | only the first received byte is delivered to the FIFO, which raises the last-byte status and notifies the interrupt line once |
| Qupv3Uart.Qupv3.BTransport | include/qup/uart/uart-qupv3.h:123-144 | every access is answered OK and refuses DMI; a write has exactly the effect `Wrote` of writing the value the first four data bytes hold in memory order; a read has exactly the effect `ReadGave`, with the value read stored in the first four data bytes and the rest of the buffer kept; any other command changes nothing |
| Qupv3Uart.Qupv3.WriteAccess | include/qup/uart/uart-qupv3.h:134-137 | the write branch: the register write of the value the first four data bytes hold, least significant first |
| Qupv3Uart.Qupv3.ReadAccess | include/qup/uart/uart-qupv3.h:138-141 | the read branch: the first four data bytes hold the value read, least significant first, and the rest of the buffer is kept |

## Left out

- Addresses, sizes and lengths are unbounded naturals. The 64-bit wrap-around of `addr + len`, `ti.address + ti.size` and `bloc_address + m_address + size` is not modelled; `Tlm.MaxAddress` stands for the all-ones 64-bit end address.
- The block tree is a value, not a structure of owned nodes updated in place. The reference `access` returns, through which `write_sub_blocks` writes, is modelled as "write the leaf, then put it back" (`SubBlocks.PutLeaf`). The DMI grant's aliasing of the leaf buffer is not modelled.
- `open`, `mmap`, `aligned_alloc` and `malloc` are oracles of `SubBlocks.Host`, each keyed by block address and length: the file is opened again for every block that maps it, and each block attempts storage at most once. A fresh allocation's contents are the oracle's `heapByte`. The backing file's contents are its `fileByte`. `munmap`, `free` and the destructors are left out.
- The configuration broker: presets are inputs (`MemoryConfig`, the router's preset maps). Locking of presets and `cci_ignore` are left out.
- `gs::Loader` is not part of this model.
- The streaming-width warning, the latency values, logging and `p_verbose` are left out.
- Fatal reports (`SC_REPORT_FATAL`, `SC_REPORT_ERROR`, failing `assert`/`sc_assert`) end the operation with `Abort(reason)`. Whatever the simulation does afterwards is left out.
- MemoryModel.Memory.Read: the entry bound is the intended `offset + len <= size`, not the asserted `offset + len < size` (see Findings).
- MemoryModel.Memory.Write: the entry bound is the intended `offset + len <= size`, not the asserted `offset + len < size` (see Findings).
- `m_relative_addresses` and `m_address` have no initial value in the source before elaboration; the model starts them at true and 0.
- RouterModel.Router.GetDirectMemPtr: when a masked target refuses DMI, the descriptor is returned as the target left it (the corrected `ComposeWindow`); the source composes both ends anyway and, for a descriptor left at its default end, trips the assertion in `compose_address` (see Findings, `ComposeWindowAsWritten`).
- MemoryModel.Memory.BTransport: requires a non-empty byte-enable buffer whenever one is attached. A zero byte-enable length divides by zero in `byt[i % bel]` (memory.h:311, 324), which the model does not represent.
- MemoryModel.Memory.Size: carries no `Valid()` contract. Called on its own before elaboration, it leaves a non-zero size with no root block; that state lies outside `Valid()`, which every other method requires. The source's `read`/`write` would still elaborate from that state (memory.h:367-368, 388-389).
- Router forwarding: the targets behind the initiator sockets are functions of the socket index and the address they see (`RouterModel.Downstream`). Their effects on the payload (data, extensions) are not modelled.
- The router's pool mutex (`THREAD_SAFE`) is left out. It exists only for concurrency.
- RouterModel.Router.Unstamp: a missing extension, or a top other than `id`, is the failure `PathMismatch`. The source asserts, and on an empty path calls `back()` with undefined behaviour.
- The contents of the DMI descriptor beyond start, end and access are not modelled (the data address and the latencies).
- `qupv3_regs.h` is not part of this model. Register offsets are the symbolic `Qupv3Uart.Reg` names, decoded from a bus address by the parameter `decode`. Bit values are the parameter `Qupv3Uart.Bits`.
- Qupv3Uart.Qupv3.Read: the value read from an unhandled offset is unspecified, because the `r = 0` after the `break` in the default case is unreachable.
- The map's `operator[]` inserts a zero entry when a missing register is read. The model reads such a register as 0 through `Get` without inserting; no read can tell the two apart.
- Qupv3Uart.Qupv3.Update: the SystemC event and `qupv3_update_sysc`, which pulses the interrupt line, are modelled only as a count of notifications (`notified`). Direct interrupt-line writes are recorded in `irq`.
- The character backend is the byte trace `txLine`. The case with no backend set is left out.
- `b_transport` of the UART copies four data bytes with `memcpy` and assumes a little-endian host; `Qupv3Uart.Qupv3.BTransport` requires at least four data bytes.

## Findings

| source | as written | input that shows it | evidently intended | confidence | as-written member | corrected member |
|---|---|---|---|---|---|---|
| include/greensocs/base-components/memory.h:373 | `read` and `write` (line 393) assert `offset + len < m_size`, but `b_transport` admits every access with `addr + len <= m_size` (memory.h:303) | a one-byte access to the last byte (offset `m_size - 1`, length 1) is admitted and then trips the assertion | `offset + len <= m_size`, the bound the transport establishes | not executed; high | MemoryModel.LastByteTripsAssertion | MemoryModel.AdmittedInBounds |
| include/greensocs/base-components/router.h:221-225 | for a masked target both ends of the DMI descriptor are composed even when the target refused DMI | a target that refuses and leaves the descriptor as initialised (start 0, end 2^64-1) trips `assert(address < targets[index].size)` at router.h:260 | translate the window only when the target granted it | not executed; medium | RouterModel.RefusalTripsCompose | RouterModel.WindowTranslated |

/**
 * The parts of the TLM-2.0 generic payload and direct-memory interface
 * (IEEE 1666-2011, clauses 11 and 14) that the memory, the router and the
 * UART touch, plus the outcomes that abort the simulation.
 */
module Tlm {
  import opened Wrappers

  /** Largest value of a 64-bit address (`sc_dt::uint64(-1)`). */
  const MaxAddress: nat := 0xFFFF_FFFF_FFFF_FFFF

  /** The value a byte-enable entry holds when the byte takes part (`TLM_BYTE_ENABLED`). */
  const ByteEnabled: bv8 := 0xff

  datatype Command = ReadCommand | WriteCommand | IgnoreCommand

  datatype Response =
    | IncompleteResponse
    | OkResponse
    | AddressErrorResponse
    | CommandErrorResponse
    | GenericErrorResponse

  /** Access granted by a direct-memory window. */
  datatype DmiAccess = DmiNone | DmiRead | DmiWrite | DmiReadWrite

  /**
   * A direct-memory descriptor: the granted window `[start, end]` (end
   * inclusive) and the access allowed. A descriptor as `tlm_dmi::init`
   * leaves it is `DefaultDmi`.
   */
  datatype Dmi = Dmi(start: nat, end: nat, access: DmiAccess)

  const DefaultDmi: Dmi := Dmi(0, MaxAddress, DmiNone)

  /** Conditions on which the simulator stops (fatal reports and failed assertions). */
  datatype Fatal =
    | MissingSize            // no size configured for a memory
    | BackingFileMissing     // the backing file cannot be opened
    | OutOfMemory            // allocation failed on a block below the minimum size
    | UnevenSplit            // a block to split is not a multiple of the fan-out
    | BoundsAssertion        // the internal read/write bound assertion failed
    | UnsupportedCommand     // a memory received a command that is neither read nor write
    | PathMismatch           // unstamping found no extension or another id on top
    | ComposeOutOfRange      // an offset handed to address composition is beyond the target
    | MissingTargetConfig    // a router target has no configured address or size

  datatype Outcome = Done | Abort(reason: Fatal)

  /** The path extension: the stack of router socket ids a transaction went through. */
  class PathIdExtension {
    var ids: seq<int>

    constructor ()
      ensures ids == []
    {
      ids := [];
    }
  }

  /**
   * The generic payload. `byteEnable` is `None` when the payload has
   * no byte-enable array and otherwise holds the `byte_enable_length` entries.
   */
  class GenericPayload {
    var command: Command
    var address: nat
    var data: array<bv8>
    var dataLength: nat
    var byteEnable: Option<seq<bv8>>
    var streamingWidth: nat
    var response: Response
    var dmiAllowed: bool
    var pathId: PathIdExtension?

    constructor (command: Command, address: nat, data: array<bv8>, dataLength: nat,
                 byteEnable: Option<seq<bv8>>)
      ensures this.command == command && this.address == address && this.data == data
      ensures this.dataLength == dataLength && this.byteEnable == byteEnable
      ensures streamingWidth == dataLength && response == IncompleteResponse
      ensures !dmiAllowed && pathId == null
    {
      this.command := command;
      this.address := address;
      this.data := data;
      this.dataLength := dataLength;
      this.byteEnable := byteEnable;
      streamingWidth := dataLength;
      response := IncompleteResponse;
      dmiAllowed := false;
      pathId := null;
    }
  }
}

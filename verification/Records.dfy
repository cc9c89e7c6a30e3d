/** Routing records and synchronization messages (rtm.h). */
module Records {
  import Addresses

  const OIF_LEN := 32

  /** The content of a `msg_body_t`: each character field is the text it holds. */
  datatype Record = Record(destination: string, mask: Addresses.u16, gateway: string, oif: string) {
    function Key(): Key { SubnetKey(destination, mask) }
  }

  /** What identifies a record: compared as text, not as a numeric address. */
  datatype Key = SubnetKey(destination: string, mask: Addresses.u16)

  datatype OpCode = Create | Update | Delete

  datatype SyncMsg = SyncMsg(opCode: OpCode, body: Record)

  /** A `msg_body_t` in memory. */
  class MsgBody {
    var destination: string
    var mask: Addresses.u16
    var gateway: string
    var oif: string

    /** `malloc` or a local declaration: whatever the memory held. */
    constructor () {}

    function View(): Record
      reads this
    { Record(destination, mask, gateway, oif) }
  }
}

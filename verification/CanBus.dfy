/** The Linux `can_frame`, shared by the telemetry bridge and the detection publisher. */
module CanBus {

  /** Identifier, data length code and data bytes; bytes are naturals below 256. */
  datatype CanFrame = CanFrame(id: nat, dlc: nat, data: seq<nat>)
}

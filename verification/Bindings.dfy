/** The work items passed from the CoAP server to the Matter task (main/BindingHandler.cpp). */
module Bindings {
  import opened Common

  datatype Kind = Word | Boolean

  /** std::variant<uint16_t, bool> */
  datatype Value = U16(word: uint16) | Flag(flag: bool) {
    function Kind(): Kind {
      if U16? then Word else Boolean
    }
  }

  /** Fields that are not set are zero. */
  datatype BindingCommandData = BindingCommandData(
    clusterId: uint32,
    attributeId: uint32,
    commandId: uint32,
    data: Value,
    readAttribute: bool,
    writeAttribute: bool,
    isGroup: bool)

  const NO_COMMAND := BindingCommandData(0, 0, 0, U16(0), false, false, false)

  datatype Binding = Unicast | Multicast

  datatype Interaction =
    | Nothing
    | Write(cluster: uint32, attribute: uint32, value: Value)
    | Read(cluster: uint32, attribute: uint32, kind: Kind)
    | Invoke(command: uint32)
    | GroupInvoke(command: uint32)

  const ON_OFF: uint32 := 6

  /** The OnOff commands Off, On and Toggle. */
  predicate IsOnOffCommand(id: uint32) {
    id <= 2
  }

  /** What StateChangedHandler sends over one binding. */
  function Dispatch(data: BindingCommandData, binding: Binding): Interaction {
    if data.writeAttribute then Write(data.clusterId, data.attributeId, data.data)
    else if data.readAttribute then Read(data.clusterId, data.attributeId, data.data.Kind())
    else if binding.Unicast? && !data.isGroup then
      if data.clusterId == ON_OFF && IsOnOffCommand(data.commandId) then Invoke(data.commandId) else Nothing
    else if binding.Multicast? && data.isGroup then
      if data.clusterId == ON_OFF && IsOnOffCommand(data.commandId) then GroupInvoke(data.commandId) else Nothing
    else Nothing
  }

  /**
   Everything a work item can lead to: a write or a read if it asks for one, over any binding; otherwise
   an OnOff command over a binding of its own sort; and nothing else.
   */
  lemma DispatchSends(data: BindingCommandData, binding: Binding, c: uint32)
    ensures var i := Dispatch(data, binding);
            && (data.writeAttribute ==> i == Write(data.clusterId, data.attributeId, data.data))
            && (!data.writeAttribute && data.readAttribute ==>
                  i == Read(data.clusterId, data.attributeId, if data.data.U16? then Word else Boolean))
            && (!data.writeAttribute && !data.readAttribute ==> i.Nothing? || i.Invoke? || i.GroupInvoke?)
            && (i == Invoke(c) <==>
                  && !data.writeAttribute && !data.readAttribute && binding == Unicast && !data.isGroup
                  && data.clusterId == 6 && data.commandId == c && (c == 0 || c == 1 || c == 2))
            && (i == GroupInvoke(c) <==>
                  && !data.writeAttribute && !data.readAttribute && binding == Multicast && data.isGroup
                  && data.clusterId == 6 && data.commandId == c && (c == 0 || c == 1 || c == 2))
  {
  }
}

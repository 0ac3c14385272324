/** JIDs (types/jid.go): the record, its servers and the domain numbers of AD JIDs. */
module Jid {
  import opened Bytes

  const DefaultUserServer: Bytes := Ascii("s.whatsapp.net")
  const HiddenUserServer: Bytes := Ascii("lid")
  const MessengerServer: Bytes := Ascii("msgr")
  const InteropServer: Bytes := Ascii("interop")
  const HostedServer: Bytes := Ascii("hosted")
  const HostedLIDServer: Bytes := Ascii("hosted.lid")

  const WhatsAppDomain: byte := 0
  const LIDDomain: byte := 1
  const HostedDomain: byte := 128
  const HostedLIDDomain: byte := 129

  datatype JID = JID(user: Bytes, rawAgent: byte, device: uint16, integrator: uint16, server: Bytes) {
    function ActualAgent(): byte {
      if server == DefaultUserServer then WhatsAppDomain
      else if server == HiddenUserServer then LIDDomain
      else if server == HostedServer then HostedDomain
      else if server == HostedLIDServer then HostedLIDDomain
      else rawAgent
    }
  }

  function NewJID(user: Bytes, server: Bytes): JID {
    JID(user, 0, 0, 0, server)
  }

  /** An agent that is no domain number stays in the JID, whose server is then left empty. */
  function NewADJID(user: Bytes, agent: byte, device: byte): JID {
    if agent == LIDDomain then JID(user, 0, device, 0, HiddenUserServer)
    else if agent == HostedDomain then JID(user, 0, device, 0, HostedServer)
    else if agent == HostedLIDDomain then JID(user, 0, device, 0, HostedLIDServer)
    else if agent == WhatsAppDomain then JID(user, agent, device, 0, DefaultUserServer)
    else JID(user, agent, device, 0, [])
  }

  /** The domain numbers of the four servers with AD JIDs. */
  lemma DomainNumbers(user: Bytes, device: byte)
    ensures NewADJID(user, 0, device) == JID(user, 0, device, 0, Ascii("s.whatsapp.net"))
    ensures NewADJID(user, 1, device) == JID(user, 0, device, 0, Ascii("lid"))
    ensures NewADJID(user, 128, device) == JID(user, 0, device, 0, Ascii("hosted"))
    ensures NewADJID(user, 129, device) == JID(user, 0, device, 0, Ascii("hosted.lid"))
    ensures forall agent: byte | agent !in {0, 1, 128, 129} ::
              NewADJID(user, agent, device) == JID(user, agent, device, 0, [])
  {
  }

  /** The servers are told apart by their lengths. */
  lemma ServersDiffer()
    ensures |DefaultUserServer| == 14 && |HiddenUserServer| == 3 && |MessengerServer| == 4
    ensures |InteropServer| == 7 && |HostedServer| == 6 && |HostedLIDServer| == 10
  {
  }

  /** The servers of AD JIDs carry their domain number through the constructor. */
  lemma DomainRoundTrip(j: JID, device: byte)
    requires j.server in {DefaultUserServer, HiddenUserServer, HostedServer, HostedLIDServer}
    ensures NewADJID(j.user, j.ActualAgent(), device) == JID(j.user, 0, device, 0, j.server)
  {
    ServersDiffer();
  }
}

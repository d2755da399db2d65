/** Switch ports and their counters (virtual_port.cpp).  Ports live by value in
    the switch's port map, so they are values here. */
module VirtualPort {
  import opened Basics
  import opened Ethernet
  import Vlan

  const MINIMUM_MTU := 64
  const MAXIMUM_MTU := 9216

  datatype Counters = Counters(receivedPackets: nat, receivedBytes: nat, transmittedPackets: nat, transmittedBytes: nat,
                               receiveErrors: nat, transmitErrors: nat, receiveDrops: nat, transmitDrops: nat)

  datatype Port = Port(id: PortId, mac: Mac, mtu: nat, config: Vlan.PortConfig,
                       adminEnabled: bool, linkUp: bool, counters: Counters)

  const NO_COUNTERS := Counters(0, 0, 0, 0, 0, 0, 0, 0)

  predicate ValidPort(p: Port)
  {
    IsStation(p.mac) && MINIMUM_MTU <= p.mtu <= MAXIMUM_MTU && Vlan.ValidConfig(p.config)
  }

  function Create(id: PortId, mac: Mac, mtu: nat, config: Vlan.PortConfig): (p: Option<Port>)
    requires Vlan.ValidConfig(config)
    ensures p.Some? <==> IsStation(mac) && 64 <= mtu <= 9216
    ensures p.Some? ==> ValidPort(p.value) && !Operational(p.value) && p.value.counters == NO_COUNTERS
    ensures p.Some? ==> p.value.id == id && p.value.mac == mac && p.value.mtu == mtu && p.value.config == config
  {
    if !IsStation(mac) || mtu < MINIMUM_MTU || mtu > MAXIMUM_MTU then None
    else Some(Port(id, mac, mtu, config, false, false, NO_COUNTERS))
  }

  predicate Operational(p: Port) { p.adminEnabled && p.linkUp }

  function Receive(p: Port, size: nat): (Port, bool)
  {
    var c := p.counters;
    if !Operational(p) then (p.(counters := c.(receiveDrops := c.receiveDrops + 1)), false)
    else if size > p.mtu then
      (p.(counters := c.(receiveErrors := c.receiveErrors + 1, receiveDrops := c.receiveDrops + 1)), false)
    else
      (p.(counters := c.(receivedPackets := c.receivedPackets + 1, receivedBytes := c.receivedBytes + size)), true)
  }

  function Transmit(p: Port, size: nat): (Port, bool)
  {
    var c := p.counters;
    if !Operational(p) then (p.(counters := c.(transmitDrops := c.transmitDrops + 1)), false)
    else if size > p.mtu then
      (p.(counters := c.(transmitErrors := c.transmitErrors + 1, transmitDrops := c.transmitDrops + 1)), false)
    else
      (p.(counters := c.(transmittedPackets := c.transmittedPackets + 1,
                         transmittedBytes := c.transmittedBytes + size)), true)
  }

  /** Every frame a port is handed is counted once on its side: taken with its size when
      the port works and it fits, otherwise dropped, and as an error if it was too big.
      Nothing else about the port changes. */
  lemma ReceiveCounts(p: Port, size: nat)
    ensures var (p', ok) := Receive(p, size);
      var c, c' := p.counters, p'.counters;
      && (ok <==> p.adminEnabled && p.linkUp && size <= p.mtu)
      && p' == p.(counters := c.(receivedPackets := c'.receivedPackets, receivedBytes := c'.receivedBytes,
                                 receiveErrors := c'.receiveErrors, receiveDrops := c'.receiveDrops))
      && c'.receivedPackets == c.receivedPackets + (if ok then 1 else 0)
      && c'.receivedBytes == c.receivedBytes + (if ok then size else 0)
      && c'.receiveDrops == c.receiveDrops + (if ok then 0 else 1)
      && c'.receiveErrors == c.receiveErrors + (if p.adminEnabled && p.linkUp && !ok then 1 else 0)
  {
  }

  lemma TransmitCounts(p: Port, size: nat)
    ensures var (p', ok) := Transmit(p, size);
      var c, c' := p.counters, p'.counters;
      && (ok <==> p.adminEnabled && p.linkUp && size <= p.mtu)
      && p' == p.(counters := c.(transmittedPackets := c'.transmittedPackets, transmittedBytes := c'.transmittedBytes,
                                 transmitErrors := c'.transmitErrors, transmitDrops := c'.transmitDrops))
      && c'.transmittedPackets == c.transmittedPackets + (if ok then 1 else 0)
      && c'.transmittedBytes == c.transmittedBytes + (if ok then size else 0)
      && c'.transmitDrops == c.transmitDrops + (if ok then 0 else 1)
      && c'.transmitErrors == c.transmitErrors + (if p.adminEnabled && p.linkUp && !ok then 1 else 0)
  {
  }
}

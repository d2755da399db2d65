/** Deterministic fault injection (fault_injector.cpp). */
module FaultInjector {
  import opened Basics
  import Wire

  datatype Config = Config(failedPorts: set<PortId>, dropEvery: nat, corruptEvery: nat, latency: int, exhausted: bool)

  datatype Faults = Faults(config: Config, processed: nat)

  const NO_FAULTS := Faults(Config({}, 0, 0, 0, false), 0)

  datatype DropReason = FailedPort | PacketLoss | ResourceExhaustion

  datatype Result = Lost(reason: DropReason) | Passed(bytes: Bytes, latency: int, corrupted: bool)

  function FlipLowBit(b: byte): byte { if b % 2 == 0 then b + 1 else b - 1 }

  function Corrupt(bytes: Bytes): (r: Bytes)
    requires bytes != []
    ensures |r| == |bytes|
  {
    [FlipLowBit(bytes[0])] + bytes[1..]
  }

  predicate ValidConfig(c: Config) { c.latency >= 0 }

  function Inject(f: Faults, port: PortId, bytes: Bytes): (Faults, Result)
  {
    var n := f.processed + 1;
    (f.(processed := n),
     if port in f.config.failedPorts then Lost(FailedPort)
     else if f.config.exhausted then Lost(ResourceExhaustion)
     else if f.config.dropEvery != 0 && n % f.config.dropEvery == 0 then Lost(PacketLoss)
     else if bytes != [] && f.config.corruptEvery != 0 && n % f.config.corruptEvery == 0 then
       Passed(Corrupt(bytes), f.config.latency, true)
     else Passed(bytes, f.config.latency, false))
  }

  /** What passes has its length, and differs at most in the low bit of its first byte. */
  lemma InjectedBytes(f: Faults, port: PortId, bytes: Bytes)
    ensures var r := Inject(f, port, bytes).1;
      r.Passed? ==>
        && |r.bytes| == |bytes|
        && (!r.corrupted ==> r.bytes == bytes)
        && (r.corrupted ==> bytes != [] && r.bytes == Corrupt(bytes) && Corrupt(r.bytes) == bytes && r.bytes != bytes)
  {
    if bytes != [] {
      assert Corrupt(Corrupt(bytes)) == bytes;
      assert Corrupt(bytes)[0] != bytes[0];
    }
  }

  /** What becomes of the next packet, by its number and port: a failed port comes before
      exhaustion, exhaustion before loss, and only what passes can be corrupted. */
  lemma FateExactly(f: Faults, port: PortId, bytes: Bytes)
    ensures var (f', r) := Inject(f, port, bytes);
      var n, c := f.processed + 1, f.config;
      && f' == Faults(c, n)
      && (r == Lost(FailedPort) <==> port in c.failedPorts)
      && (r == Lost(ResourceExhaustion) <==> port !in c.failedPorts && c.exhausted)
      && (r == Lost(PacketLoss) <==>
            port !in c.failedPorts && !c.exhausted && c.dropEvery > 0 && n % c.dropEvery == 0)
      && (r.Passed? ==>
            r.latency == c.latency
            && (r.corrupted <==> bytes != [] && c.corruptEvery > 0 && n % c.corruptEvery == 0))
  {
  }

  /** How many of `packets`, all on `port`, are lost, and how many come out corrupted. */
  function LostCount(f: Faults, port: PortId, packets: seq<Bytes>): nat
    decreases packets
  {
    if packets == [] then 0
    else
      var (f', r) := Inject(f, port, packets[0]);
      (if r.Lost? then 1 else 0) + LostCount(f', port, packets[1..])
  }

  function CorruptedCount(f: Faults, port: PortId, packets: seq<Bytes>): nat
    decreases packets
  {
    if packets == [] then 0
    else
      var (f', r) := Inject(f, port, packets[0]);
      (if r.Passed? && r.corrupted then 1 else 0) + CorruptedCount(f', port, packets[1..])
  }

  lemma NextMultiple(m: nat, d: nat)
    requires d > 0
    ensures (m + 1) / d == m / d + if (m + 1) % d == 0 then 1 else 0
  {
    var q, r := m / d, m % d;
    assert m == q * d + r;
    if r + 1 < d {
      Wire.DivUnique(m + 1, d, q, r + 1);
      assert (m + 1) % d == r + 1;
    } else {
      assert (q + 1) * d == q * d + d;
      Wire.DivUnique(m + 1, d, q + 1, 0);
    }
  }

  /** A working port with loss every `d` packets loses exactly one in `d`, over any run. */
  lemma {:induction false} LossRate(f: Faults, port: PortId, packets: seq<Bytes>)
    requires port !in f.config.failedPorts && !f.config.exhausted && f.config.dropEvery > 0
    ensures LostCount(f, port, packets) ==
            (f.processed + |packets|) / f.config.dropEvery - f.processed / f.config.dropEvery
    decreases |packets|
  {
    if packets != [] {
      LossRate(Inject(f, port, packets[0]).0, port, packets[1..]);
      NextMultiple(f.processed, f.config.dropEvery);
    }
  }

  /** Without losses, corruption every `d` packets corrupts exactly one in `d`. */
  lemma {:induction false} CorruptionRate(f: Faults, port: PortId, packets: seq<Bytes>)
    requires port !in f.config.failedPorts && !f.config.exhausted && f.config.dropEvery == 0
    requires f.config.corruptEvery > 0 && [] !in packets
    ensures CorruptedCount(f, port, packets) ==
            (f.processed + |packets|) / f.config.corruptEvery - f.processed / f.config.corruptEvery
    decreases |packets|
  {
    if packets != [] {
      assert packets[0] in packets && forall p :: p in packets[1..] ==> p in packets;
      CorruptionRate(Inject(f, port, packets[0]).0, port, packets[1..]);
      NextMultiple(f.processed, f.config.corruptEvery);
    }
  }

  /** With nothing configured every packet passes as it is. */
  predicate Quiet(f: Faults)
  {
    f.config.failedPorts == {} && !f.config.exhausted && f.config.dropEvery == 0 && f.config.corruptEvery == 0
  }

  class Injector {
    var config: Config
    var processed: nat

    ghost function State(): Faults
      reads this
    {
      Faults(config, processed)
    }

    constructor ()
      ensures State() == NO_FAULTS
    {
      config, processed := NO_FAULTS.config, 0;
    }

    method Process(port: PortId, packet: Bytes) returns (r: Result)
      modifies this
      ensures (State(), r) == Inject(old(State()), port, packet)
    {
      processed := processed + 1;
      if port in config.failedPorts {
        return Lost(FailedPort);
      }
      if config.exhausted {
        return Lost(ResourceExhaustion);
      }
      if config.dropEvery != 0 && processed % config.dropEvery == 0 {
        return Lost(PacketLoss);
      }
      var bytes, corrupted := packet, false;
      if bytes != [] && config.corruptEvery != 0 && processed % config.corruptEvery == 0 {
        bytes := bytes[0 := FlipLowBit(bytes[0])];
        assert bytes == Corrupt(packet);
        corrupted := true;
      }
      return Passed(bytes, config.latency, corrupted);
    }

    /** An invalid configuration is refused and the old one stays. */
    method SetConfig(c: Config) returns (ok: bool)
      modifies this
      ensures ok == ValidConfig(c)
      ensures State() == if ok then Faults(c, old(processed)) else old(State())
    {
      if c.latency < 0 {
        return false;
      }
      config := c;
      return true;
    }
  }
}

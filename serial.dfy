/** The WebUSB transport of the host app (flash-programmer/www/src/serial.js): a Port records
    the interface and the bulk endpoints it finds in the device's descriptors, keeps the
    receive-handler slot, and sends strings through one 64-byte buffer that every Port shares.

    The USB device itself is outside the model: its configuration descriptors are an input,
    and every bulk OUT transfer is appended to the Port's `transfers` trace. */
module Serial {
  import opened Base
  import opened Text

  const USB_VENDOR_ID: nat := 0x239A
  const BUFSIZE: nat := 64

  /** The interface class of the vendor-specific interface carrying the serial data. */
  const VENDOR_CLASS: nat := 0xFF

  // ---------------------------------------------------------------------------
  // Descriptors and endpoint discovery

  datatype Direction = In | Out
  datatype Endpoint = Endpoint(endpointNumber: nat, direction: Direction)
  datatype Alternate = Alternate(interfaceClass: nat, endpoints: seq<Endpoint>)
  datatype Interface = Interface(interfaceNumber: nat, alternates: seq<Alternate>)

  /** The three numbers discovery assigns. */
  datatype Discovery = Discovery(interfaceNumber: nat, endpointIn: nat, endpointOut: nat)

  /** The effect of visiting one endpoint of a vendor-class alternate. */
  function AfterEndpoint(d: Discovery, e: Endpoint): Discovery {
    if e.direction == Out then d.(endpointOut := e.endpointNumber) else d.(endpointIn := e.endpointNumber)
  }

  /** The effect of visiting endpoints in order (each function below is stated on a prefix, so
      that one more element is one more step). */
  function AfterEndpoints(d: Discovery, eps: seq<Endpoint>): Discovery {
    if |eps| == 0 then d else AfterEndpoint(AfterEndpoints(d, eps[..|eps| - 1]), eps[|eps| - 1])
  }

  function AfterAlternate(d: Discovery, number: nat, alt: Alternate): Discovery {
    if alt.interfaceClass == VENDOR_CLASS then AfterEndpoints(d.(interfaceNumber := number), alt.endpoints) else d
  }

  function AfterAlternates(d: Discovery, number: nat, alts: seq<Alternate>): Discovery {
    if |alts| == 0 then d else AfterAlternate(AfterAlternates(d, number, alts[..|alts| - 1]), number, alts[|alts| - 1])
  }

  function AfterInterfaces(d: Discovery, ifaces: seq<Interface>): Discovery {
    if |ifaces| == 0 then d
    else
      var last := ifaces[|ifaces| - 1];
      AfterAlternates(AfterInterfaces(d, ifaces[..|ifaces| - 1]), last.interfaceNumber, last.alternates)
  }

  // The reference description: the last match wins.

  predicate HasVendorAlternate(iface: Interface) {
    exists j :: 0 <= j < |iface.alternates| && iface.alternates[j].interfaceClass == VENDOR_CLASS
  }

  /** The number of the last interface, in descriptor order, with a vendor-class alternate. */
  function LastVendorInterface(ifaces: seq<Interface>): Option<nat> {
    if |ifaces| == 0 then None
    else if HasVendorAlternate(ifaces[|ifaces| - 1]) then Some(ifaces[|ifaces| - 1].interfaceNumber)
    else LastVendorInterface(ifaces[..|ifaces| - 1])
  }

  /** The endpoints of the vendor-class alternates of the interfaces, in descriptor order. */
  function VendorEndpointsOf(alts: seq<Alternate>): seq<Endpoint> {
    if |alts| == 0 then []
    else
      var last := alts[|alts| - 1];
      VendorEndpointsOf(alts[..|alts| - 1]) + (if last.interfaceClass == VENDOR_CLASS then last.endpoints else [])
  }

  function VendorEndpoints(ifaces: seq<Interface>): seq<Endpoint> {
    if |ifaces| == 0 then []
    else VendorEndpoints(ifaces[..|ifaces| - 1]) + VendorEndpointsOf(ifaces[|ifaces| - 1].alternates)
  }

  /** The number of the last endpoint with the given direction. */
  function LastIn(eps: seq<Endpoint>, dir: Direction): Option<nat> {
    if |eps| == 0 then None
    else if eps[|eps| - 1].direction == dir then Some(eps[|eps| - 1].endpointNumber)
    else LastIn(eps[..|eps| - 1], dir)
  }

  function OrElse(o: Option<nat>, default: nat): nat {
    if o.Some? then o.value else default
  }

  lemma {:induction false} LastInAppend(a: seq<Endpoint>, b: seq<Endpoint>, dir: Direction)
    ensures LastIn(a + b, dir) == if LastIn(b, dir).Some? then LastIn(b, dir) else LastIn(a, dir)
    decreases |b|
  {
    if |b| == 0 {
      assert a + b == a;
    } else {
      assert (a + b)[..|a + b| - 1] == a + b[..|b| - 1];
      LastInAppend(a, b[..|b| - 1], dir);
    }
  }

  /** Visiting endpoints sets each direction's number to that of its last endpoint. */
  lemma {:induction false} EndpointsLastWins(d: Discovery, eps: seq<Endpoint>)
    ensures AfterEndpoints(d, eps) ==
      Discovery(d.interfaceNumber, OrElse(LastIn(eps, In), d.endpointIn), OrElse(LastIn(eps, Out), d.endpointOut))
    decreases |eps|
  {
    if |eps| > 0 {
      EndpointsLastWins(d, eps[..|eps| - 1]);
    }
  }

  lemma {:induction false} AlternatesLastWins(d: Discovery, number: nat, alts: seq<Alternate>)
    ensures var r := AfterAlternates(d, number, alts);
      && r.interfaceNumber == (if exists j :: 0 <= j < |alts| && alts[j].interfaceClass == VENDOR_CLASS then number else d.interfaceNumber)
      && r.endpointIn == OrElse(LastIn(VendorEndpointsOf(alts), In), d.endpointIn)
      && r.endpointOut == OrElse(LastIn(VendorEndpointsOf(alts), Out), d.endpointOut)
    decreases |alts|
  {
    if |alts| > 0 {
      var init := alts[..|alts| - 1];
      var last := alts[|alts| - 1];
      AlternatesLastWins(d, number, init);
      assert forall j :: 0 <= j < |init| ==> init[j] == alts[j];
      var e := if last.interfaceClass == VENDOR_CLASS then last.endpoints else [];
      LastInAppend(VendorEndpointsOf(init), e, In);
      LastInAppend(VendorEndpointsOf(init), e, Out);
      if last.interfaceClass == VENDOR_CLASS {
        EndpointsLastWins(AfterAlternates(d, number, init).(interfaceNumber := number), last.endpoints);
      }
    }
  }

  /** Discovery keeps the number of the last interface with a vendor-class alternate and the
      numbers of the last "in" and the last "out" endpoint across all vendor-class alternates;
      with no match a number keeps its value from before. Endpoints of other classes play no
      part, since they are not in VendorEndpoints. */
  lemma {:induction false} DiscoveryLastWins(d: Discovery, ifaces: seq<Interface>)
    ensures AfterInterfaces(d, ifaces) == Discovery(
      OrElse(LastVendorInterface(ifaces), d.interfaceNumber),
      OrElse(LastIn(VendorEndpoints(ifaces), In), d.endpointIn),
      OrElse(LastIn(VendorEndpoints(ifaces), Out), d.endpointOut))
    decreases |ifaces|
  {
    if |ifaces| > 0 {
      var init := ifaces[..|ifaces| - 1];
      var last := ifaces[|ifaces| - 1];
      DiscoveryLastWins(d, init);
      AlternatesLastWins(AfterInterfaces(d, init), last.interfaceNumber, last.alternates);
      LastInAppend(VendorEndpoints(init), VendorEndpointsOf(last.alternates), In);
      LastInAppend(VendorEndpoints(init), VendorEndpointsOf(last.alternates), Out);
    }
  }

  /** Every endpoint that VendorEndpoints lists comes from a vendor-class alternate. */
  lemma {:induction false} VendorEndpointsFromVendorClass(ifaces: seq<Interface>, k: nat)
    requires k < |VendorEndpoints(ifaces)|
    ensures exists i, j ::
      && 0 <= i < |ifaces| && 0 <= j < |ifaces[i].alternates|
      && ifaces[i].alternates[j].interfaceClass == VENDOR_CLASS
      && VendorEndpoints(ifaces)[k] in ifaces[i].alternates[j].endpoints
    decreases |ifaces|
  {
    var init := ifaces[..|ifaces| - 1];
    var last := ifaces[|ifaces| - 1];
    if k < |VendorEndpoints(init)| {
      VendorEndpointsFromVendorClass(init, k);
      var i, j :| 0 <= i < |init| && 0 <= j < |init[i].alternates|
        && init[i].alternates[j].interfaceClass == VENDOR_CLASS
        && VendorEndpoints(init)[k] in init[i].alternates[j].endpoints;
      assert init[i] == ifaces[i];
    } else {
      var j := AlternateOfVendorEndpoint(last.alternates, k - |VendorEndpoints(init)|);
      assert ifaces[|ifaces| - 1] == last;
    }
  }

  lemma {:induction false} AlternateOfVendorEndpoint(alts: seq<Alternate>, k: nat) returns (j: nat)
    requires k < |VendorEndpointsOf(alts)|
    ensures j < |alts| && alts[j].interfaceClass == VENDOR_CLASS && VendorEndpointsOf(alts)[k] in alts[j].endpoints
    decreases |alts|
  {
    var init := alts[..|alts| - 1];
    if k < |VendorEndpointsOf(init)| {
      j := AlternateOfVendorEndpoint(init, k);
      assert init[j] == alts[j];
    } else {
      j := |alts| - 1;
      assert VendorEndpointsOf(alts)[k] == alts[j].endpoints[k - |VendorEndpointsOf(init)|];
    }
  }

  // ---------------------------------------------------------------------------
  // The Port

  /** The receive handlers the host app installs in a Port's onReceive slot: the constructor's
      no-op, the line echo, the protocol-version check and the download receiver. */
  datatype Handler = Noop | SerialEcho | VersionCheck | DownloadReceive

  /** One bulk OUT transfer: the endpoint and the bytes sent. */
  datatype Transfer = Transfer(endpoint: nat, data: seq<byte>)

  /** The argument of send: a string or a byte buffer. */
  datatype Payload = Text(text: string) | Data(bytes: seq<byte>)

  class Port {
    var interfaceNumber: nat
    var endpointIn: nat
    var endpointOut: nat
    var onReceive: Handler
    /** The interface is claimed and the line-state request sent; cleared by disconnect. */
    var claimed: bool
    /** Every transferOut, in order. */
    var transfers: seq<Transfer>
    /** The module-level 64-byte buffer that string sends are encoded into; shared by all Ports. */
    const outBuffer: array<byte>

    ghost predicate Valid()
      reads this
    {
      outBuffer.Length == BUFSIZE
    }

    function Found(): Discovery
      reads this
    {
      Discovery(interfaceNumber, endpointIn, endpointOut)
    }

    /** The constructor: numbers 0, handler no-op; the device is outside the model. */
    constructor (outBuffer: array<byte>)
      requires outBuffer.Length == BUFSIZE
      ensures Valid() && this.outBuffer == outBuffer
      ensures Found() == Discovery(0, 0, 0) && onReceive == Noop
      ensures !claimed && transfers == []
    {
      this.outBuffer := outBuffer;
      interfaceNumber, endpointIn, endpointOut := 0, 0, 0;
      onReceive := Noop;
      claimed := false;
      transfers := [];
    }

    /** The nested forEach loops of connect over interfaces, alternates and endpoints. */
    method Discover(ifaces: seq<Interface>)
      modifies this`interfaceNumber, this`endpointIn, this`endpointOut
      ensures Found() == AfterInterfaces(old(Found()), ifaces)
    {
      ghost var d0 := Found();
      var i := 0;
      while i < |ifaces|
        invariant 0 <= i <= |ifaces|
        invariant Found() == AfterInterfaces(d0, ifaces[..i])
      {
        assert ifaces[..i + 1][..i] == ifaces[..i];
        var element := ifaces[i];
        ghost var di := Found();
        var j := 0;
        while j < |element.alternates|
          invariant 0 <= j <= |element.alternates|
          invariant Found() == AfterAlternates(di, element.interfaceNumber, element.alternates[..j])
        {
          assert element.alternates[..j + 1][..j] == element.alternates[..j];
          var alt := element.alternates[j];
          if alt.interfaceClass == VENDOR_CLASS {
            interfaceNumber := element.interfaceNumber;
            ghost var dj := Found();
            var k := 0;
            while k < |alt.endpoints|
              invariant 0 <= k <= |alt.endpoints|
              invariant Found() == AfterEndpoints(dj, alt.endpoints[..k])
            {
              assert alt.endpoints[..k + 1][..k] == alt.endpoints[..k];
              var ep := alt.endpoints[k];
              if ep.direction == Out {
                endpointOut := ep.endpointNumber;
              }
              if ep.direction == In {
                endpointIn := ep.endpointNumber;
              }
              k := k + 1;
            }
            assert alt.endpoints[..k] == alt.endpoints;
          }
          j := j + 1;
        }
        assert element.alternates[..j] == element.alternates;
        i := i + 1;
      }
      assert ifaces[..i] == ifaces;
    }

    /** connect. With no configuration selected it selects one and returns before discovery;
        otherwise it discovers, claims the interface, sends "D" and starts the read loop
        (which is outside the model). */
    method Connect(configuration: Option<seq<Interface>>)
      requires Valid()
      modifies this, outBuffer
      ensures Valid() && onReceive == old(onReceive)
      ensures configuration.None? ==>
        && Found() == old(Found()) && claimed == old(claimed)
        && transfers == old(transfers) && outBuffer[..] == old(outBuffer[..])
      ensures configuration.Some? ==>
        && Found() == AfterInterfaces(old(Found()), configuration.value) && claimed
        && outBuffer[0] == 'D' as int && outBuffer[1..] == old(outBuffer[1..])
        && transfers == old(transfers) + [Transfer(endpointOut, outBuffer[..])]
    {
      if configuration.None? {
        return;
      }
      Discover(configuration.value);
      claimed := true;
      Send(Text("D"));
      assert EncodeInto("D", BUFSIZE) == ['D' as int];
    }

    /** disconnect: the line-state-off request, release and close are outside the model. */
    method Disconnect()
      modifies this`claimed
      ensures !claimed
    {
      claimed := false;
    }

    /** send. A string is encoded into the first bytes of the shared buffer, the rest of which
        keeps what earlier sends left there, and the whole 64-byte buffer is transferred; any
        other data is transferred as it is. */
    method Send(data: Payload)
      requires Valid()
      modifies this`transfers, outBuffer
      ensures data.Text? ==>
        var e := EncodeInto(data.text, BUFSIZE);
        && outBuffer[..|e|] == e && outBuffer[|e|..] == old(outBuffer[..])[|e|..]
        && transfers == old(transfers) + [Transfer(endpointOut, outBuffer[..])]
      ensures data.Data? ==>
        && outBuffer[..] == old(outBuffer[..])
        && transfers == old(transfers) + [Transfer(endpointOut, data.bytes)]
    {
      if data.Text? {
        var e := EncodeInto(data.text, BUFSIZE);
        var i := 0;
        while i < |e|
          invariant 0 <= i <= |e|
          invariant forall k :: 0 <= k < i ==> outBuffer[k] == e[k]
          invariant forall k :: i <= k < BUFSIZE ==> outBuffer[k] == old(outBuffer[k])
          invariant transfers == old(transfers)
        {
          outBuffer[i] := e[i];
          i := i + 1;
        }
        transfers := transfers + [Transfer(endpointOut, outBuffer[..])];
      } else {
        transfers := transfers + [Transfer(endpointOut, data.bytes)];
      }
    }
  }

  /** A buffer whose every byte was overwritten by an encoding is that encoding. */
  lemma OverwrittenBuffer(buffer: seq<byte>, e: seq<byte>)
    requires |buffer| == |e| && buffer[..|e|] == e
    ensures buffer == e
  {
    assert buffer == buffer[..|e|];
  }

  /** For ASCII text, send overwrites exactly the first min(length, 64) bytes with the
      characters' codes. */
  lemma AsciiSendPrefix(text: string)
    requires IsAscii(text)
    ensures |EncodeInto(text, BUFSIZE)| == if |text| < BUFSIZE then |text| else BUFSIZE
    ensures forall i :: 0 <= i < |EncodeInto(text, BUFSIZE)| ==> EncodeInto(text, BUFSIZE)[i] == text[i] as int
  {
    EncodeIntoAscii(text, BUFSIZE);
  }
}

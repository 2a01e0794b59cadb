/** The BGP peer descriptor of a peer (`BIRDConfig`) and its construction
    from the peer's property map (`BIRDConfig::new`). */
module BirdConfig {
  import opened Wrappers
  import Decimal
  import Ipv4

  const KeyBgpEndpoint: string := "bgp_endpoint"
  const KeyBgpEndpointPort: string := "bgp_endpoint_port"
  const KeyBgpNeighborAs: string := "bgp_neighbor_as"

  /** A peer's generic string properties (`PeerInfo::props`). */
  type Props = map<string, string>

  /** `BIRDConfig { endpoint, endpoint_port, neighbor_as }`. */
  datatype Config = Config(endpoint: Ipv4.Addr, endpointPort: Option<Decimal.U16>, neighborAs: Decimal.U32)

  /** Why `new` failed; each carries the error `new` propagates. */
  datatype ConfigError =
    | EndpointMissing
    | EndpointInvalid
    | PortInvalid(portKind: Decimal.IntErrorKind)
    | AsMissing
    | AsInvalid(asKind: Decimal.IntErrorKind)

  /** The text of the error `new` returns. */
  function Message(e: ConfigError): string
  {
    match e
    case EndpointMissing => "BGP endpoint is not available"
    case EndpointInvalid => "invalid IP address syntax"
    case PortInvalid(k) => Decimal.IntErrorMessage(k)
    case AsMissing => "BGP neighbor as is not available"
    case AsInvalid(k) => Decimal.IntErrorMessage(k)
  }

  /** `BIRDConfig::new`: the fields are evaluated in declaration order and
      each `?` returns the first error met. */
  function New(props: Props): (r: Result<Config, ConfigError>)
    ensures r == Err(EndpointMissing) <==> KeyBgpEndpoint !in props
    ensures r.Ok? ==> (r.value.endpointPort.None? <==> KeyBgpEndpointPort !in props)
  {
    if KeyBgpEndpoint !in props then Err(EndpointMissing)
    else
      match Ipv4.Parse(props[KeyBgpEndpoint])
      case None => Err(EndpointInvalid)
      case Some(endpoint) =>
        var port: Result<Option<Decimal.U16>, ConfigError> :=
          if KeyBgpEndpointPort in props then
            match Decimal.ParseU16(props[KeyBgpEndpointPort])
            case Ok(p) => Ok(Some(p))
            case Err(k) => Err(PortInvalid(k))
          else Ok(None);
        match port
        case Err(e) => Err(e)
        case Ok(endpointPort) =>
          if KeyBgpNeighborAs !in props then Err(AsMissing)
          else
            match Decimal.ParseU32(props[KeyBgpNeighborAs])
            case Err(k) => Err(AsInvalid(k))
            case Ok(asn) => Ok(Config(endpoint, endpointPort, asn))
  }

  /** The endpoint property is present and is an address. */
  predicate EndpointValid(props: Props)
  {
    KeyBgpEndpoint in props && Ipv4.Parse(props[KeyBgpEndpoint]).Some?
  }

  /** The port property is absent, or present and a `u16`. */
  predicate PortValid(props: Props)
  {
    KeyBgpEndpointPort in props ==> Decimal.IsUnsignedText(props[KeyBgpEndpointPort], Decimal.U16Max)
  }

  /** The AS property is present and a `u32`. */
  predicate AsValid(props: Props)
  {
    KeyBgpNeighborAs in props && Decimal.IsUnsignedText(props[KeyBgpNeighborAs], Decimal.U32Max)
  }

  /** `new` succeeds exactly when all three properties are acceptable, and
      its fields are then the parsed values; an absent port is `None`. */
  lemma NewSucceedsIff(props: Props)
    ensures New(props).Ok? <==> EndpointValid(props) && PortValid(props) && AsValid(props)
    ensures New(props).Ok? ==>
      && Some(New(props).value.endpoint) == Ipv4.Parse(props[KeyBgpEndpoint])
      && New(props).value.neighborAs == Decimal.Value(Decimal.DigitsOf(props[KeyBgpNeighborAs]))
      && (KeyBgpEndpointPort !in props ==> New(props).value.endpointPort == None)
      && (KeyBgpEndpointPort in props ==>
            New(props).value.endpointPort == Some(Decimal.Value(Decimal.DigitsOf(props[KeyBgpEndpointPort]))))
  {
    if KeyBgpEndpointPort in props {
      Decimal.ParseUnsignedMeaning(props[KeyBgpEndpointPort], Decimal.U16Max);
    }
    if KeyBgpNeighborAs in props {
      Decimal.ParseUnsignedMeaning(props[KeyBgpNeighborAs], Decimal.U32Max);
    }
  }

  /** A missing endpoint is reported whatever the other keys hold. */
  lemma MissingEndpointFirst(props: Props)
    requires KeyBgpEndpoint !in props
    ensures New(props) == Err(EndpointMissing)
    ensures Message(New(props).error) == "BGP endpoint is not available"
  {
  }

  /** A present endpoint that is not an address is reported whatever the
      port and AS properties hold. */
  lemma BadEndpointFirst(props: Props)
    requires KeyBgpEndpoint in props && Ipv4.Parse(props[KeyBgpEndpoint]).None?
    ensures New(props) == Err(EndpointInvalid)
    ensures Message(New(props).error) == "invalid IP address syntax"
  {
  }

  /** With a good endpoint, a present but unreadable port is reported, with
      the kind its parse gives, before anything about the AS number is
      looked at. */
  lemma BadPortBeforeAs(props: Props)
    requires EndpointValid(props)
    requires KeyBgpEndpointPort in props && !Decimal.IsUnsignedText(props[KeyBgpEndpointPort], Decimal.U16Max)
    ensures Decimal.ParseU16(props[KeyBgpEndpointPort]).Err?
    ensures New(props) == Err(PortInvalid(Decimal.ParseU16(props[KeyBgpEndpointPort]).error))
  {
    Decimal.ParseUnsignedMeaning(props[KeyBgpEndpointPort], Decimal.U16Max);
  }

  /** With a good endpoint and an absent or good port, a present but
      unreadable AS number is the error, with the kind its parse gives. */
  lemma BadAsLast(props: Props)
    requires EndpointValid(props) && PortValid(props)
    requires KeyBgpNeighborAs in props && !Decimal.IsUnsignedText(props[KeyBgpNeighborAs], Decimal.U32Max)
    ensures Decimal.ParseU32(props[KeyBgpNeighborAs]).Err?
    ensures New(props) == Err(AsInvalid(Decimal.ParseU32(props[KeyBgpNeighborAs]).error))
  {
    if KeyBgpEndpointPort in props {
      Decimal.ParseUnsignedMeaning(props[KeyBgpEndpointPort], Decimal.U16Max);
    }
    Decimal.ParseUnsignedMeaning(props[KeyBgpNeighborAs], Decimal.U32Max);
  }

  /** With a good endpoint and an absent or good port, a missing AS number
      is the error. */
  lemma MissingAsAfterPort(props: Props)
    requires EndpointValid(props) && PortValid(props)
    requires KeyBgpNeighborAs !in props
    ensures New(props) == Err(AsMissing)
    ensures Message(New(props).error) == "BGP neighbor as is not available"
  {
    if KeyBgpEndpointPort in props {
      Decimal.ParseUnsignedMeaning(props[KeyBgpEndpointPort], Decimal.U16Max);
    }
  }

  /** The property map a descriptor is written to: the printed address, the
      printed port when there is one, the printed AS number. */
  function ToProps(c: Config): (props: Props)
    ensures KeyBgpEndpoint in props && KeyBgpNeighborAs in props
    ensures KeyBgpEndpointPort in props <==> c.endpointPort.Some?
  {
    var base := map[KeyBgpEndpoint := Ipv4.Show(c.endpoint), KeyBgpNeighborAs := Decimal.Show(c.neighborAs)];
    if c.endpointPort.Some? then base[KeyBgpEndpointPort := Decimal.Show(c.endpointPort.value)] else base
  }

  /** Every descriptor is recovered by `new` from its printed properties. */
  lemma NewToProps(c: Config)
    ensures New(ToProps(c)) == Ok(c)
  {
    var props := ToProps(c);
    assert props[KeyBgpEndpoint] == Ipv4.Show(c.endpoint);
    assert props[KeyBgpNeighborAs] == Decimal.Show(c.neighborAs);
    Ipv4.ParseShow(c.endpoint);
    Decimal.ParseShow(c.neighborAs, Decimal.U32Max);
    if c.endpointPort.Some? {
      assert props[KeyBgpEndpointPort] == Decimal.Show(c.endpointPort.value);
      Decimal.ParseShow(c.endpointPort.value, Decimal.U16Max);
    }
  }

  lemma ExampleNumbers()
    ensures Decimal.Show(0) == "0" && Decimal.Show(5) == "5" && Decimal.Show(10) == "10"
    ensures Decimal.Show(65001) == "65001"
  {
    assert Decimal.Show(6) == "6";
    assert Decimal.Show(65) == "65";
    assert Decimal.Show(650) == "650";
    assert Decimal.Show(6500) == "6500";
  }

  /** A peer with an endpoint and an AS number and no port property. */
  lemma ExampleNewWithoutPort()
    ensures New(map[KeyBgpEndpoint := "10.0.0.5", KeyBgpNeighborAs := "65001"])
         == Ok(Config(Ipv4.Addr(10, 0, 0, 5), None, 65001))
  {
    var c := Config(Ipv4.Addr(10, 0, 0, 5), None, 65001);
    ExampleNumbers();
    assert Ipv4.Show(c.endpoint) == "10.0.0.5";
    assert ToProps(c) == map[KeyBgpEndpoint := "10.0.0.5", KeyBgpNeighborAs := "65001"];
    NewToProps(c);
  }

  /** Text that is not an address is refused. */
  lemma ExampleNotAnIp(props: Props)
    requires KeyBgpEndpoint in props && props[KeyBgpEndpoint] == "not-an-ip"
    ensures New(props) == Err(EndpointInvalid)
  {
    assert Ipv4.Split("not-an-ip") == ["not-an-ip"] by {
      Ipv4.SplitNoDot("not-an-ip");
    }
  }
}

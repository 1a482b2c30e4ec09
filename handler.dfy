/**
 * `lambda_handler`: fetch the addresses, then for each family that has any,
 * consolidate them and manage that family's prefix list; a family without
 * addresses is skipped.
 */
module Handler {
  import opened Wrappers
  import opened Seqs
  import opened Cidr
  import opened Resolve
  import opened Consolidate
  import opened Reconcile

  const Ipv4ListName: string := "uptimerobot4"
  const Ipv6ListName: string := "uptimerobot6"

  /** The outcome the handler reports: status 200 with the counts, or 500 with the error. */
  datatype Response =
    | Ok(ipv4Cidrs: nat, ipv6Cidrs: nat, totalIpv4Addresses: nat, totalIpv6Addresses: nat)
    | Failed(error: FetchError)
  {
    function StatusCode(): int
    {
      if Ok? then 200 else 500
    }
  }

  /**
   * Every entry of a family's list parses in that family, and the list parses
   * to exactly that family's addresses in the answers.
   */
  lemma FamilyParses(answers: seq<AddrText>)
    ensures forall k | 0 <= k < |Distinct(V4s(answers))| :: ParseAs(Distinct(V4s(answers))[k], 4).Some?
    ensures forall k | 0 <= k < |Distinct(V6s(answers))| :: ParseAs(Distinct(V6s(answers))[k], 6).Some?
    ensures forall a: nat :: ParsesTo(Distinct(V4s(answers)), 4, a) <==> a < 0x1_0000_0000 && V4Text(a) in answers
    ensures forall a: nat :: ParsesTo(Distinct(V6s(answers)), 6, a) <==>
      a < 0x1_0000_0000_0000_0000_0000_0000_0000_0000 && V6Text(a) in answers
  {
    PartitionSpec(answers);
    var v4, v6 := Distinct(V4s(answers)), Distinct(V6s(answers));
    forall a: nat ensures ParsesTo(v4, 4, a) <==> a < 0x1_0000_0000 && V4Text(a) in answers {
      if a < 0x1_0000_0000 && V4Text(a) in answers {
        var k :| 0 <= k < |v4| && v4[k] == V4Text(a);
        assert ParseAs(v4[k], 4) == Some(a);
      }
      if ParsesTo(v4, 4, a) {
        var k :| 0 <= k < |v4| && ParseAs(v4[k], 4) == Some(a);
        assert v4[k] in v4;
      }
    }
    forall a: nat ensures ParsesTo(v6, 6, a) <==> a < 0x1_0000_0000_0000_0000_0000_0000_0000_0000 && V6Text(a) in answers {
      if a < 0x1_0000_0000_0000_0000_0000_0000_0000_0000 && V6Text(a) in answers {
        var k :| 0 <= k < |v6| && v6[k] == V6Text(a);
        assert ParseAs(v6[k], 6) == Some(a);
      }
      if ParsesTo(v6, 6, a) {
        var k :| 0 <= k < |v6| && ParseAs(v6[k], 6) == Some(a);
        assert v6[k] in v6;
      }
    }
  }

  /** A non-empty list of addresses of one family never consolidates to an empty set of blocks. */
  lemma NonEmptyFamilyKeepsBlocks(ips: seq<AddrText>, ipVersion: int, result: seq<Block>)
    requires forall a: nat :: Covered(result, Bits(ipVersion), a) <==> ParsesTo(ips, ipVersion, a)
    requires forall i | 0 <= i < |result| :: ValidBlock(result[i], Bits(ipVersion))
    requires forall k | 0 <= k < |ips| :: ParseAs(ips[k], ipVersion).Some?
    ensures result != [] <==> ips != []
  {
    if result != [] {
      assert Covers(result[0], Bits(ipVersion), result[0].base);
      assert Covered(result, Bits(ipVersion), result[0].base);
      assert ParsesTo(ips, ipVersion, result[0].base);
    }
    if ips != [] {
      var a := ParseAs(ips[0], ipVersion).value;
      assert ParsesTo(ips, ipVersion, a);
      assert Covered(result, Bits(ipVersion), a);
    }
  }

  /**
   * One family's branch of the handler: skipped when it has no addresses,
   * otherwise consolidated and handed to `manage_prefix_list`.
   */
  method ProcessFamily(ips: seq<AddrText>, ipVersion: int, name: string, addressFamily: string,
                       maxEntries: int, service: ListService)
    returns (cidrs: seq<Block>, action: Option<Action>)
    requires HasLast(service.pages)
    requires forall k | 0 <= k < |ips| :: ParseAs(ips[k], ipVersion).Some?
    ensures cidrs == Collapse(AddressSet(ips, ipVersion), Bits(ipVersion))
    ensures forall a: nat :: Covered(cidrs, Bits(ipVersion), a) <==> ParsesTo(ips, ipVersion, a)
    ensures action.Some? <==> ips != []
    ensures cidrs != [] <==> ips != []
    ensures action.Some? ==> Manages(action.value, name, cidrs, addressFamily, maxEntries, service)
  {
    cidrs, action := [], None;
    assert ips == [] ==> AddressSet(ips, ipVersion) == {};
    if ips != [] {
      cidrs := ConsolidateIps(ips, ipVersion);
      NonEmptyFamilyKeepsBlocks(ips, ipVersion, cidrs);
      var a := ManagePrefixList(name, cidrs, addressFamily, maxEntries, service);
      action := Some(a);
    }
  }

  /**
   * The handler. The response is a success exactly when the answers hold an
   * address; on a failed fetch nothing is written and the response is the error.
   * Otherwise each family's blocks are the collapse of its addresses in the
   * answers, and a family with addresses gets one managed-list action while a
   * family without addresses gets none.
   */
  method LambdaHandler(lookup: Lookup, ipv4Service: ListService, ipv6Service: ListService, maxEntries: int)
    returns (response: Response, ipv4Cidrs: seq<Block>, ipv6Cidrs: seq<Block>,
             ipv4Action: Option<Action>, ipv6Action: Option<Action>)
    requires HasLast(ipv4Service.pages) && HasLast(ipv6Service.pages)
    ensures lookup.GaiError? ==> response == Failed(DnsFailure(lookup.reason))
    ensures lookup.Answers? && !HasAddress(lookup.addresses) ==> response == Failed(NoAddresses)
    ensures response.Ok? <==> lookup.Answers? && HasAddress(lookup.addresses)
    ensures response.StatusCode() == 200 <==> lookup.Answers? && HasAddress(lookup.addresses)
    ensures response.Failed? ==> ipv4Action == None && ipv6Action == None
    ensures response.Ok? ==>
      && lookup.Answers?
      && response.totalIpv4Addresses == |Distinct(V4s(lookup.addresses))|
      && response.totalIpv6Addresses == |Distinct(V6s(lookup.addresses))|
      && response.ipv4Cidrs == |ipv4Cidrs| && response.ipv6Cidrs == |ipv6Cidrs|
      && (ipv4Action.Some? <==> response.totalIpv4Addresses > 0)
      && (ipv6Action.Some? <==> response.totalIpv6Addresses > 0)
      && (ipv4Cidrs != [] <==> response.totalIpv4Addresses > 0)
      && (ipv6Cidrs != [] <==> response.totalIpv6Addresses > 0)
    ensures response.Ok? ==>
      && ipv4Cidrs == Collapse(AddressSet(Distinct(V4s(lookup.addresses)), 4), Bits(4))
      && ipv6Cidrs == Collapse(AddressSet(Distinct(V6s(lookup.addresses)), 6), Bits(6))
    ensures response.Ok? ==>
      forall a: nat :: Covered(ipv4Cidrs, 32, a) <==> a < 0x1_0000_0000 && V4Text(a) in lookup.addresses
    ensures response.Ok? ==>
      forall a: nat :: Covered(ipv6Cidrs, 128, a) <==>
        a < 0x1_0000_0000_0000_0000_0000_0000_0000_0000 && V6Text(a) in lookup.addresses
    ensures ipv4Action.Some? ==> Manages(ipv4Action.value, Ipv4ListName, ipv4Cidrs, "IPv4", maxEntries, ipv4Service)
    ensures ipv6Action.Some? ==> Manages(ipv6Action.value, Ipv6ListName, ipv6Cidrs, "IPv6", maxEntries, ipv6Service)
  {
    var fetched := Fetch(lookup);
    if fetched.Failure? {
      return Failed(fetched.error), [], [], None, None;
    }
    var ipv4Addresses, ipv6Addresses := fetched.value.0, fetched.value.1;
    FamilyParses(lookup.addresses);
    ipv4Cidrs, ipv4Action := ProcessFamily(ipv4Addresses, 4, Ipv4ListName, "IPv4", maxEntries, ipv4Service);
    ipv6Cidrs, ipv6Action := ProcessFamily(ipv6Addresses, 6, Ipv6ListName, "IPv6", maxEntries, ipv6Service);
    assert Bits(4) == 32 && Bits(6) == 128;
    response := Ok(|ipv4Cidrs|, |ipv6Cidrs|, |ipv4Addresses|, |ipv6Addresses|);
  }
}

/**
 * `consolidate_ips_to_cidrs`: the addresses of one family are parsed, the ones
 * that do not parse are skipped, and the rest are collapsed into CIDR blocks.
 */
module Consolidate {
  import opened Wrappers
  import opened Arith
  import opened Cidr
  import opened Resolve
  import opened Seqs

  /** Address width of the family an `ip_version` selects: 4 is IPv4, any other value IPv6. */
  function Bits(ipVersion: int): nat
  {
    if ipVersion == 4 then 32 else 128
  }

  /**
   * `ipaddress.IPv4Address(ip)` when the version is 4, else `ipaddress.IPv6Address(ip)`:
   * the address as a number, or None where the constructor raises ValueError.
   */
  function ParseAs(ip: AddrText, ipVersion: int): (r: Option<nat>)
    ensures r.Some? <==> (if ipVersion == 4 then ip.V4Text? else ip.V6Text?)
    ensures r.Some? ==> r.value < Pow2(Bits(ipVersion))
  {
    AddressSpaces();
    if ipVersion == 4 then (if ip.V4Text? then Some(ip.v4) else None)
    else (if ip.V6Text? then Some(ip.v6) else None)
  }

  /** The values of the entries of `ips` that parse in the family, in order. */
  function Parsed(ips: seq<AddrText>, ipVersion: int): (r: seq<nat>)
    ensures forall a | a in r :: a < Pow2(Bits(ipVersion))
  {
    if ips == [] then []
    else
      var init := Parsed(ips[..|ips| - 1], ipVersion);
      match ParseAs(ips[|ips| - 1], ipVersion)
      case Some(a) => init + [a]
      case None => init
  }

  lemma {:induction false} ParsedSpec(ips: seq<AddrText>, ipVersion: int)
    ensures |Parsed(ips, ipVersion)| <= |ips|
    ensures forall a :: a in Parsed(ips, ipVersion) <==>
      exists k | 0 <= k < |ips| :: ParseAs(ips[k], ipVersion) == Some(a)
  {
    if ips != [] {
      var init := ips[..|ips| - 1];
      ParsedSpec(init, ipVersion);
      forall a ensures a in Parsed(ips, ipVersion) <==>
        exists k | 0 <= k < |ips| :: ParseAs(ips[k], ipVersion) == Some(a)
      {
        if exists k | 0 <= k < |ips| :: ParseAs(ips[k], ipVersion) == Some(a) {
          var k :| 0 <= k < |ips| && ParseAs(ips[k], ipVersion) == Some(a);
          if k < |init| {
            assert init[k] == ips[k];
          }
        }
        if a in Parsed(init, ipVersion) {
          var k :| 0 <= k < |init| && ParseAs(init[k], ipVersion) == Some(a);
          assert ips[k] == init[k];
        }
      }
    }
  }

  /** The loop that builds `addresses`: each entry is parsed and a parse failure is skipped. */
  method ParseAll(ips: seq<AddrText>, ipVersion: int) returns (addresses: seq<nat>)
    ensures addresses == Parsed(ips, ipVersion)
  {
    addresses := [];
    for i := 0 to |ips|
      invariant addresses == Parsed(ips[..i], ipVersion)
    {
      assert ips[..i + 1][..i] == ips[..i];
      match ParseAs(ips[i], ipVersion) {
        case Some(a) => addresses := addresses + [a];
        case None =>
      }
    }
    assert ips[..|ips|] == ips;
  }

  /** Some entry of `ips` parses, in the family, to address `a`. */
  predicate ParsesTo(ips: seq<AddrText>, ipVersion: int, a: nat)
  {
    exists k | 0 <= k < |ips| :: ParseAs(ips[k], ipVersion) == Some(a)
  }

  /** The distinct addresses that parse in the family. */
  function AddressSet(ips: seq<AddrText>, ipVersion: int): (s: set<nat>)
    ensures forall a | a in s :: a < Pow2(Bits(ipVersion))
    ensures forall a :: a in s <==> ParsesTo(ips, ipVersion, a)
    ensures |s| <= |ips|
  {
    var addresses := Parsed(ips, ipVersion);
    ParsedSpec(ips, ipVersion);
    ElementsSize(addresses);
    Elements(addresses)
  }

  /**
   * The whole of `consolidate_ips_to_cidrs`. The blocks are those of the collapse
   * of the parsed addresses; they cover exactly the entries that parse, are
   * well-formed, ascending and as large as possible, and there are no more of
   * them than input entries.
   */
  method ConsolidateIps(ips: seq<AddrText>, ipVersion: int) returns (result: seq<Block>)
    ensures forall a: nat :: Covered(result, Bits(ipVersion), a) <==> ParsesTo(ips, ipVersion, a)
    ensures forall i | 0 <= i < |result| ::
      ValidBlock(result[i], Bits(ipVersion)) && Maximal(AddressSet(ips, ipVersion), result[i], Bits(ipVersion))
    ensures Ordered(result, Bits(ipVersion))
    ensures |result| <= |ips|
    ensures result == Collapse(AddressSet(ips, ipVersion), Bits(ipVersion))
  {
    var addresses := ParseAll(ips, ipVersion);
    var s := AddressSet(ips, ipVersion);
    assert Elements(addresses) == s;
    result := Collapse(s, Bits(ipVersion));
  }

  /** The four monitoring addresses 69.162.124.226 to 69.162.124.229. */
  function ExampleIps(): seq<AddrText>
  {
    [V4Text(0x45A2_7CE2), V4Text(0x45A2_7CE3), V4Text(0x45A2_7CE4), V4Text(0x45A2_7CE5)]
  }

  /** Their values as addresses. */
  function ExampleSet(): set<nat>
  {
    {0x45A2_7CE2, 0x45A2_7CE3, 0x45A2_7CE4, 0x45A2_7CE5}
  }

  /** 69.162.124.226/31 and 69.162.124.228/31. */
  function ExampleBlocks(): seq<Block>
  {
    [Block(0x45A2_7CE2, 31), Block(0x45A2_7CE4, 31)]
  }

  lemma ExampleAddressSet()
    ensures AddressSet(ExampleIps(), 4) == ExampleSet()
  {
    var ips := ExampleIps();
    forall a ensures a in AddressSet(ips, 4) <==> a in ExampleSet() {
      if a in ExampleSet() {
        var k := a - 0x45A2_7CE2;
        assert ParseAs(ips[k], 4) == Some(a);
      }
    }
  }

  lemma ExampleValid()
    ensures ValidBlock(ExampleBlocks()[0], 32) && ValidBlock(ExampleBlocks()[1], 32)
  {
    AddressSpaces();
    assert Pow2(1) == 2;
  }

  /** The /30 parents are 69.162.124.224/30 and 69.162.124.228/30. */
  lemma ExampleParents()
    ensures Parent(ExampleBlocks()[0], 32) == Block(0x45A2_7CE0, 30)
    ensures Parent(ExampleBlocks()[1], 32) == Block(0x45A2_7CE4, 30)
  {
    assert Pow2(2) == 4;
  }

  /** Both /31 blocks are well-formed, and neither can merge into its /30 parent. */
  lemma ExampleMaximal()
    ensures forall i | 0 <= i < |ExampleBlocks()| ::
      ValidBlock(ExampleBlocks()[i], 32) && Maximal(ExampleSet(), ExampleBlocks()[i], 32)
  {
    ExampleValid();
    ExampleParents();
    assert Size(Block(0x45A2_7CE0, 30), 32) == 4;
    assert 0x45A2_7CE0 !in ExampleSet() && 0x45A2_7CE6 !in ExampleSet();
  }

  /** The two /31 blocks cover exactly the four addresses. */
  lemma ExampleCovers(a: nat)
    ensures Covered(ExampleBlocks(), 32, a) <==> a in ExampleSet()
  {
    var r := ExampleBlocks();
    assert Pow2(1) == 2;
    if a in ExampleSet() {
      if a < 0x45A2_7CE4 {
        assert Covers(r[0], 32, a);
      } else {
        assert Covers(r[1], 32, a);
      }
    }
  }

  /** The two /31 blocks meet the contract of a collapse of the four addresses. */
  lemma ExampleIsCollapse()
    ensures IsCollapse(ExampleSet(), 32, ExampleBlocks())
  {
    ExampleMaximal();
    assert Pow2(1) == 2;
    assert Ordered(ExampleBlocks(), 32);
    forall a: nat ensures Covered(ExampleBlocks(), 32, a) <==> a in ExampleSet() {
      ExampleCovers(a);
    }
  }

  /**
   * Consolidating 69.162.124.226 to 69.162.124.229 yields exactly
   * 69.162.124.226/31 and 69.162.124.228/31.
   */
  lemma ConsolidateExample()
    ensures Collapse(AddressSet(ExampleIps(), 4), Bits(4)) == ExampleBlocks()
  {
    ExampleAddressSet();
    ExampleIsCollapse();
    AddressSpaces();
    CollapseUnique(ExampleSet(), 32, ExampleBlocks());
  }
}

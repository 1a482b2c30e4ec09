/**
 * The address step of `fetch_uptimerobot_ips_dns`: the resolver's answers for the
 * monitoring hostname are split into an IPv4 list and an IPv6 list, keeping the
 * first occurrence of each address and dropping entries that are not addresses.
 */
module Resolve {
  import opened Wrappers
  import opened Seqs

  /** The hostname whose A and AAAA records list the monitoring addresses. */
  const Hostname: string := "ip.uptimerobot.com"

  type Ip4 = a: nat | a < 0x1_0000_0000
  type Ip6 = a: nat | a < 0x1_0000_0000_0000_0000_0000_0000_0000_0000

  /**
   * The address text of one resolver answer, as `ipaddress.ip_address` reads it:
   * an IPv4 address, an IPv6 address, or text that is neither.
   */
  datatype AddrText = V4Text(v4: Ip4) | V6Text(v6: Ip6) | Garbage(text: string)

  /** What the resolver gave back: the answers in order, or a resolution error. */
  datatype Lookup = Answers(addresses: seq<AddrText>) | GaiError(reason: string)

  datatype FetchError = DnsFailure(reason: string) | NoAddresses

  /**
   * The first occurrence of each element of `s`, in the order of those
   * occurrences: the same members as `s`, none of them twice.
   */
  function Distinct<T(==,!new)>(s: seq<T>): (d: seq<T>)
    ensures forall x :: x in d <==> x in s
    ensures NoDuplicates(d)
  {
    if s == [] then []
    else
      var init, last := s[..|s| - 1], s[|s| - 1];
      assert s == init + [last];
      var d := Distinct(init);
      if last in d then d else d + [last]
  }

  /** Position of the first occurrence of `x` in `s`. */
  function FirstIndex<T(==)>(s: seq<T>, x: T): (k: nat)
    requires x in s
    ensures k < |s| && s[k] == x && x !in s[..k]
  {
    if s[0] == x then 0 else 1 + FirstIndex(s[1..], x)
  }

  lemma FirstIndexExtend<T>(s: seq<T>, y: T, x: T)
    requires x in s
    ensures FirstIndex(s + [y], x) == FirstIndex(s, x)
  {
    var k := FirstIndex(s, x);
    var k' := FirstIndex(s + [y], x);
    assert (s + [y])[k] == x;
    assert (s + [y])[..k'] == s[..k'] by { assert k' <= k; }
  }

  lemma FirstIndexLast<T>(s: seq<T>, x: T)
    requires x !in s
    ensures FirstIndex(s + [x], x) == |s|
  {
    assert forall m | 0 <= m < |s| :: (s + [x])[m] == s[m];
  }

  /** Every element of `d` occurs in `s`, and `d` lists them in the order they first occur there. */
  predicate InFirstOrder<T(==)>(d: seq<T>, s: seq<T>)
  {
    (forall x | x in d :: x in s)
    && forall i, j | 0 <= i < j < |d| :: d[i] in s && d[j] in s && FirstIndex(s, d[i]) < FirstIndex(s, d[j])
  }

  /** Appending to `s` leaves the first occurrences already there unmoved. */
  lemma InFirstOrderExtend<T>(d: seq<T>, s: seq<T>, y: T)
    requires InFirstOrder(d, s)
    ensures InFirstOrder(d, s + [y])
  {
    forall x | x in d ensures x in s + [y] && FirstIndex(s + [y], x) == FirstIndex(s, x) {
      FirstIndexExtend(s, y, x);
    }
    forall i, j | 0 <= i < j < |d|
      ensures d[i] in s + [y] && d[j] in s + [y] && FirstIndex(s + [y], d[i]) < FirstIndex(s + [y], d[j])
    {
      assert d[i] in d && d[j] in d;
    }
  }

  /** A new element occurs first after every element already in `s`. */
  lemma InFirstOrderAppend<T>(d: seq<T>, s: seq<T>, y: T)
    requires InFirstOrder(d, s) && y !in s
    ensures InFirstOrder(d + [y], s + [y])
  {
    InFirstOrderExtend(d, s, y);
    FirstIndexLast(s, y);
    var r := d + [y];
    forall i, j | 0 <= i < j < |r|
      ensures r[i] in s + [y] && r[j] in s + [y] && FirstIndex(s + [y], r[i]) < FirstIndex(s + [y], r[j])
    {
      assert r[i] == d[i] && d[i] in d;
      if j < |d| {
        assert r[j] == d[j] && d[j] in d;
      } else {
        assert r[j] == y;
        assert FirstIndex(s + [y], d[i]) < |s| by { FirstIndexExtend(s, y, d[i]); }
      }
    }
  }

  /** The kept occurrences appear in the order in which the elements first occur in `s`. */
  lemma {:induction false} DistinctOrder<T(!new)>(s: seq<T>)
    ensures InFirstOrder(Distinct(s), s)
  {
    if s != [] {
      var init, last := s[..|s| - 1], s[|s| - 1];
      assert s == init + [last];
      DistinctOrder(init);
      if last in Distinct(init) {
        InFirstOrderExtend(Distinct(init), init, last);
      } else {
        InFirstOrderAppend(Distinct(init), init, last);
      }
    }
  }

  /** The answers that parse as IPv4 addresses, in order. */
  function V4s(s: seq<AddrText>): (r: seq<AddrText>)
    ensures forall x :: x in r <==> x in s && x.V4Text?
  {
    if s == [] then []
    else
      var init, last := s[..|s| - 1], s[|s| - 1];
      assert s == init + [last];
      if last.V4Text? then V4s(init) + [last] else V4s(init)
  }

  /** The answers that parse as IPv6 addresses, in order. */
  function V6s(s: seq<AddrText>): (r: seq<AddrText>)
    ensures forall x :: x in r <==> x in s && x.V6Text?
  {
    if s == [] then []
    else
      var init, last := s[..|s| - 1], s[|s| - 1];
      assert s == init + [last];
      if last.V6Text? then V6s(init) + [last] else V6s(init)
  }

  lemma AppendInit<T>(s: seq<T>, i: nat)
    requires i < |s|
    ensures s[..i + 1][..i] == s[..i] && s[..i + 1][i] == s[i] && s[..i + 1] != []
  {
  }

  /**
   * The loop over the resolver answers: each address goes to the list of its own
   * family unless that list already holds it; text that is not an address is skipped.
   */
  method Partition(answers: seq<AddrText>) returns (v4: seq<AddrText>, v6: seq<AddrText>)
    ensures v4 == Distinct(V4s(answers)) && v6 == Distinct(V6s(answers))
  {
    v4, v6 := [], [];
    for i := 0 to |answers|
      invariant v4 == Distinct(V4s(answers[..i]))
      invariant v6 == Distinct(V6s(answers[..i]))
    {
      AppendInit(answers, i);
      var ip := answers[i];
      match ip {
        case V4Text(_) =>
          if ip !in v4 {
            v4 := v4 + [ip];
          }
        case V6Text(_) =>
          if ip !in v6 {
            v6 := v6 + [ip];
          }
        case Garbage(_) =>
      }
    }
    assert answers[..|answers|] == answers;
  }

  /**
   * What the partition promises: every kept entry is an address of its own list's
   * family, every address of the answers is kept, none is kept twice, and the
   * kept entries are in the order of their first occurrence.
   */
  lemma PartitionSpec(answers: seq<AddrText>)
    ensures var v4, v6 := Distinct(V4s(answers)), Distinct(V6s(answers));
      && (forall x :: x in v4 <==> x in answers && x.V4Text?)
      && (forall x :: x in v6 <==> x in answers && x.V6Text?)
      && NoDuplicates(v4) && NoDuplicates(v6)
      && (forall i, j | 0 <= i < j < |v4| :: FirstIndex(answers, v4[i]) < FirstIndex(answers, v4[j]))
      && (forall i, j | 0 <= i < j < |v6| :: FirstIndex(answers, v6[i]) < FirstIndex(answers, v6[j]))
  {
    var s4, s6 := V4s(answers), V6s(answers);
    OrderThroughFilter(answers, s4);
    OrderThroughFilter(answers, s6);
  }

  /** First-occurrence order in a filtered sequence is first-occurrence order in the original. */
  lemma OrderThroughFilter(answers: seq<AddrText>, f: seq<AddrText>)
    requires f == V4s(answers) || f == V6s(answers)
    ensures forall x | x in Distinct(f) :: x in answers
    ensures forall i, j | 0 <= i < j < |Distinct(f)| ::
      FirstIndex(answers, Distinct(f)[i]) < FirstIndex(answers, Distinct(f)[j])
  {
    DistinctOrder(f);
    var d := Distinct(f);
    forall i, j | 0 <= i < j < |d|
      ensures FirstIndex(answers, d[i]) < FirstIndex(answers, d[j])
    {
      FilterFirstIndexMonotone(answers, d[i], d[j]);
    }
  }

  /**
   * Two addresses of one family occur first in the same relative order in the
   * answers as in the answers of that family.
   */
  lemma {:induction false} FilterFirstIndexMonotone(s: seq<AddrText>, x: AddrText, y: AddrText)
    requires (x.V4Text? && y.V4Text?) || (x.V6Text? && y.V6Text?)
    requires x in s && y in s
    ensures x.V4Text? ==>
      x in V4s(s) && y in V4s(s) &&
      (FirstIndex(V4s(s), x) < FirstIndex(V4s(s), y) <==> FirstIndex(s, x) < FirstIndex(s, y))
    ensures x.V6Text? ==>
      x in V6s(s) && y in V6s(s) &&
      (FirstIndex(V6s(s), x) < FirstIndex(V6s(s), y) <==> FirstIndex(s, x) < FirstIndex(s, y))
  {
    var init, last := s[..|s| - 1], s[|s| - 1];
    assert s == init + [last];
    assert V4s(s) == if last.V4Text? then V4s(init) + [last] else V4s(init);
    assert V6s(s) == if last.V6Text? then V6s(init) + [last] else V6s(init);
    if x in init && y in init {
      FilterFirstIndexMonotone(init, x, y);
      FirstIndexExtend(init, last, x);
      FirstIndexExtend(init, last, y);
      if x.V4Text? {
        if last.V4Text? {
          FirstIndexExtend(V4s(init), last, x);
          FirstIndexExtend(V4s(init), last, y);
        }
      } else {
        if last.V6Text? {
          FirstIndexExtend(V6s(init), last, x);
          FirstIndexExtend(V6s(init), last, y);
        }
      }
    } else if x in init {
      // y occurs only as the last answer
      FirstIndexExtend(init, last, x);
      FirstIndexLast(init, y);
      if x.V4Text? {
        FirstIndexExtend(V4s(init), last, x);
        FirstIndexLast(V4s(init), y);
      } else {
        FirstIndexExtend(V6s(init), last, x);
        FirstIndexLast(V6s(init), y);
      }
    } else if y in init {
      FirstIndexExtend(init, last, y);
      FirstIndexLast(init, x);
      if x.V4Text? {
        FirstIndexExtend(V4s(init), last, y);
        FirstIndexLast(V4s(init), x);
      } else {
        FirstIndexExtend(V6s(init), last, y);
        FirstIndexLast(V6s(init), x);
      }
    }
  }

  /** True when the answers hold at least one IPv4 or IPv6 address. */
  predicate HasAddress(answers: seq<AddrText>)
  {
    exists k | 0 <= k < |answers| :: !answers[k].Garbage?
  }

  lemma HasAddressIff(s: seq<AddrText>)
    ensures HasAddress(s) <==> V4s(s) != [] || V6s(s) != []
  {
    assert forall k | 0 <= k < |s| :: s[k] in s;
    if HasAddress(s) {
      var k :| 0 <= k < |s| && !s[k].Garbage?;
      assert s[k] in V4s(s) || s[k] in V6s(s);
    }
    if V4s(s) != [] {
      assert V4s(s)[0] in s;
    }
    if V6s(s) != [] {
      assert V6s(s)[0] in s;
    }
  }

  /**
   * `fetch_uptimerobot_ips_dns` after the lookup: a resolution error and an answer
   * without any address both fail; otherwise the two partitioned lists.
   */
  method Fetch(lookup: Lookup) returns (r: Result<(seq<AddrText>, seq<AddrText>), FetchError>)
    ensures lookup.GaiError? ==> r == Failure(DnsFailure(lookup.reason))
    ensures lookup.Answers? && !HasAddress(lookup.addresses) ==> r == Failure(NoAddresses)
    ensures lookup.Answers? && HasAddress(lookup.addresses) ==>
      r == Success((Distinct(V4s(lookup.addresses)), Distinct(V6s(lookup.addresses))))
    ensures r.Success? ==> r.value.0 != [] || r.value.1 != []
  {
    match lookup {
      case GaiError(reason) =>
        return Failure(DnsFailure(reason));
      case Answers(answers) =>
        var v4, v6 := Partition(answers);
        HasAddressIff(answers);
        assert v4 == [] <==> V4s(answers) == [] by {
          if V4s(answers) != [] { assert V4s(answers)[0] in v4; }
        }
        assert v6 == [] <==> V6s(answers) == [] by {
          if V6s(answers) != [] { assert V6s(answers)[0] in v6; }
        }
        if v4 == [] && v6 == [] {
          return Failure(NoAddresses);
        }
        return Success((v4, v6));
    }
  }
}

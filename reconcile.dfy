/**
 * The prefix-list side of the update: reading the current entries page by page
 * (`update_prefix_list`), diffing them against the desired CIDRs, building the
 * one modify request that converges the list, and the create path
 * (`create_prefix_list`) with its first-100 batch and capacity.
 */
module Reconcile {
  import opened Wrappers
  import opened Cidr
  import opened Seqs
  import Resolve

  /** The description of every entry the function writes. */
  const EntryDescription: string := "UptimeRobot monitoring address returned from " + Resolve.Hostname

  /** `create_managed_prefix_list` takes at most this many entries. */
  const InitialEntryLimit: nat := 100

  /** Spare capacity a new list gets beyond its initial entries. */
  const CapacityHeadroom: nat := 20

  /** `MAX_ENTRIES_PER_SECURITY_GROUP` when the environment does not set it. */
  const DefaultMaxEntries: int := 120

  /** An entry of a managed prefix list. */
  datatype Entry = Entry(cidr: Block, description: Option<string>)

  /** One response of `get_managed_prefix_list_entries`. */
  datatype Page = Page(entries: seq<Entry>, nextToken: Option<string>)

  /** The loop stops on a page whose `NextToken` is missing or empty. */
  predicate IsLast(p: Page)
  {
    p.nextToken == None || p.nextToken == Some("")
  }

  predicate HasLast(pages: seq<Page>)
  {
    exists k | 0 <= k < |pages| :: IsLast(pages[k])
  }

  /** Index of the first last page. */
  function FirstLast(pages: seq<Page>): (k: nat)
    requires HasLast(pages)
    ensures k < |pages| && IsLast(pages[k])
    ensures forall j | 0 <= j < k :: !IsLast(pages[j])
  {
    if IsLast(pages[0]) then 0
    else
      assert HasLast(pages[1..]) by {
        var k :| 0 <= k < |pages| && IsLast(pages[k]);
        assert pages[1..][k - 1] == pages[k];
      }
      1 + FirstLast(pages[1..])
  }

  function EntryCidrs(entries: seq<Entry>): set<Block>
  {
    set e | e in entries :: e.cidr
  }

  /** The CIDRs of all entries of all pages. */
  function CidrsOf(pages: seq<Page>): set<Block>
  {
    if pages == [] then {} else CidrsOf(pages[..|pages| - 1]) + EntryCidrs(pages[|pages| - 1].entries)
  }

  lemma {:induction false} CidrsOfSpec(pages: seq<Page>)
    ensures forall c :: c in CidrsOf(pages) <==>
      exists k, e | 0 <= k < |pages| && e in pages[k].entries :: e.cidr == c
  {
    if pages != [] {
      var init := pages[..|pages| - 1];
      CidrsOfSpec(init);
      forall c ensures c in CidrsOf(pages) <==>
        exists k, e | 0 <= k < |pages| && e in pages[k].entries :: e.cidr == c
      {
        if exists k, e | 0 <= k < |pages| && e in pages[k].entries :: e.cidr == c {
          var k, e :| 0 <= k < |pages| && e in pages[k].entries && e.cidr == c;
          if k < |init| {
            assert init[k] == pages[k];
          }
        }
        if c in CidrsOf(init) {
          var k, e :| 0 <= k < |init| && e in init[k].entries && e.cidr == c;
          assert pages[k] == init[k];
        }
      }
    }
  }

  /** Reading one more page adds the CIDRs of its entries. */
  lemma CidrsOfNext(pages: seq<Page>, i: nat)
    requires i < |pages|
    ensures CidrsOf(pages[..i + 1]) == CidrsOf(pages[..i]) + EntryCidrs(pages[i].entries)
  {
    assert pages[..i + 1][..i] == pages[..i];
  }

  /** The CIDRs the list holds: those of every page up to and including the first last one. */
  function ListedCidrs(pages: seq<Page>): set<Block>
    requires HasLast(pages)
  {
    CidrsOf(pages[..FirstLast(pages) + 1])
  }

  /**
   * The `NextToken` parameters of the first `n` requests when page k answers the
   * k-th request: none on the first, then the token of the page before.
   */
  function SentTokens(pages: seq<Page>, n: nat): (t: seq<Option<string>>)
    requires n <= |pages| + 1
    ensures |t| == n
    ensures 0 < n ==> t[0] == None
    ensures forall k | 0 < k < n :: t[k] == pages[k - 1].nextToken
  {
    if n == 0 then [] else if n == 1 then [None] else SentTokens(pages, n - 1) + [pages[n - 2].nextToken]
  }

  /**
   * The pagination loop of `update_prefix_list`. Page k is the service's answer to
   * the k-th request; `tokens[k]` is the `NextToken` parameter of that request.
   */
  method GatherCurrent(pages: seq<Page>) returns (current: set<Block>, tokens: seq<Option<string>>)
    requires HasLast(pages)
    ensures |tokens| == FirstLast(pages) + 1
    ensures tokens[0] == None
    ensures forall k | 0 < k < |tokens| :: tokens[k] == pages[k - 1].nextToken && tokens[k] != None
    ensures current == ListedCidrs(pages)
  {
    current := {};
    tokens := [];
    var nextToken: Option<string> := None;
    var i := 0;
    while true
      invariant i <= FirstLast(pages)
      invariant tokens == SentTokens(pages, i)
      invariant nextToken == if i == 0 then None else pages[i - 1].nextToken
      invariant current == CidrsOf(pages[..i])
      decreases FirstLast(pages) - i
    {
      var sent := if nextToken != None && nextToken != Some("") then nextToken else None;
      tokens := tokens + [sent];
      var response := pages[i];
      CidrsOfNext(pages, i);
      current := current + EntryCidrs(response.entries);
      nextToken := response.nextToken;
      i := i + 1;
      if nextToken == None || nextToken == Some("") {
        break;
      }
    }
  }

  /** The two sets `update_prefix_list` computes. */
  datatype Change = Change(toAdd: set<Block>, toRemove: set<Block>)

  /** What a modify request carrying `c` does to the set of CIDRs of the list. */
  function Apply(current: set<Block>, c: Change): set<Block>
  {
    (current - c.toRemove) + c.toAdd
  }

  /**
   * `to_add = new_cidrs - current_cidrs` and `to_remove = current_cidrs - new_cidrs`.
   * The two are disjoint, add only what is missing, remove only what is present,
   * and applying them to the current set gives exactly the desired set; both are
   * empty exactly when the list already holds the desired set.
   */
  function Diff(current: set<Block>, desired: seq<Block>): (d: Change)
    ensures d.toAdd !! d.toRemove
    ensures d.toAdd !! current
    ensures d.toRemove <= current
    ensures Apply(current, d) == Elements(desired)
    ensures d.toAdd == {} && d.toRemove == {} <==> current == Elements(desired)
  {
    var wanted := Elements(desired);
    var d := Change(wanted - current, current - wanted);
    assert d.toAdd == {} && d.toRemove == {} ==> forall c :: c in current <==> c in wanted by {
      forall c | d.toAdd == {} && d.toRemove == {} ensures c in current <==> c in wanted {
        assert c !in d.toAdd && c !in d.toRemove;
      }
    }
    d
  }

  /** Once a diff has been applied, diffing again finds nothing to do. */
  lemma DiffIdempotent(current: set<Block>, desired: seq<Block>)
    ensures var after := Apply(current, Diff(current, desired));
      Diff(after, desired) == Change({}, {})
  {
  }

  /** Current {A, B, C} and desired [B, C, D] give add {D} and remove {A}. */
  lemma DiffExample(a: Block, b: Block, c: Block, d: Block)
    requires a != b && a != c && a != d && b != c && b != d && c != d
    ensures Diff({a, b, c}, [b, c, d]) == Change({d}, {a})
  {
    assert Elements([b, c, d]) == {b, c, d};
  }

  /** Iteration over a Python set: its elements, each once, in some order. */
  method Enumerate(s: set<Block>) returns (xs: seq<Block>)
    ensures Elements(xs) == s && NoDuplicates(xs) && |xs| == |s|
  {
    xs := [];
    var rest := s;
    while rest != {}
      invariant rest !! Elements(xs) && rest + Elements(xs) == s
      invariant NoDuplicates(xs) && |xs| + |rest| == |s|
      decreases |rest|
    {
      var c :| c in rest;
      AppendFresh(xs, c);
      xs := xs + [c];
      rest := rest - {c};
    }
  }

  /** The parameters of one `modify_managed_prefix_list` call. */
  datatype ModifyRequest = ModifyRequest(
    prefixListId: string,
    currentVersion: int,
    removeEntries: Option<seq<Block>>,
    addEntries: Option<seq<Entry>>)

  /** The entries written for `cidrs`, with the fixed description. */
  function Described(cidrs: seq<Block>): seq<Entry>
  {
    seq(|cidrs|, i requires 0 <= i < |cidrs| => Entry(cidrs[i], Some(EntryDescription)))
  }

  /** The change a modify request makes. */
  function RequestChange(req: ModifyRequest): Change
  {
    Change(
      if req.addEntries.Some? then EntryCidrs(req.addEntries.value) else {},
      if req.removeEntries.Some? then Elements(req.removeEntries.value) else {})
  }

  lemma DescribedCidrs(cidrs: seq<Block>)
    ensures EntryCidrs(Described(cidrs)) == Elements(cidrs)
  {
    var es := Described(cidrs);
    forall c | c in Elements(cidrs) ensures c in EntryCidrs(es) {
      var i :| 0 <= i < |cidrs| && cidrs[i] == c;
      assert es[i].cidr == c;
    }
  }

  /**
   * The building of `modify_params`: the list id and version always, the remove
   * entries only when something is removed, the add entries (with the
   * description) only when something is added.
   */
  method BuildModifyRequest(prefixListId: string, currentVersion: int, change: Change)
    returns (req: ModifyRequest)
    ensures req.prefixListId == prefixListId && req.currentVersion == currentVersion
    ensures req.removeEntries.Some? <==> change.toRemove != {}
    ensures req.addEntries.Some? <==> change.toAdd != {}
    ensures req.removeEntries.Some? ==> NoDuplicates(req.removeEntries.value)
    ensures req.addEntries.Some? ==>
      && NoDuplicates(req.addEntries.value)
      && forall e | e in req.addEntries.value :: e.description == Some(EntryDescription)
    ensures RequestChange(req) == change
  {
    req := ModifyRequest(prefixListId, currentVersion, None, None);
    if change.toRemove != {} {
      var removed := Enumerate(change.toRemove);
      req := req.(removeEntries := Some(removed));
    }
    if change.toAdd != {} {
      var added := Enumerate(change.toAdd);
      DescribedCidrs(added);
      req := req.(addEntries := Some(Described(added)));
    }
  }

  /**
   * `update_prefix_list` after the list has been located: no request when the
   * list already holds exactly the desired CIDRs, otherwise one request whose
   * removals and additions turn the listed set into the desired set.
   * `currentVersion` is the version `describe_managed_prefix_lists` reports.
   */
  method UpdatePrefixList(prefixListId: string, cidrs: seq<Block>, pages: seq<Page>, currentVersion: int)
    returns (req: Option<ModifyRequest>)
    requires HasLast(pages)
    ensures req.None? <==> ListedCidrs(pages) == Elements(cidrs)
    ensures req.Some? ==>
      && req.value.prefixListId == prefixListId
      && req.value.currentVersion == currentVersion
      && RequestChange(req.value) == Diff(ListedCidrs(pages), cidrs)
      && (req.value.removeEntries.Some? <==> Diff(ListedCidrs(pages), cidrs).toRemove != {})
      && (req.value.addEntries.Some? <==> Diff(ListedCidrs(pages), cidrs).toAdd != {})
      && Apply(ListedCidrs(pages), RequestChange(req.value)) == Elements(cidrs)
  {
    var current, _ := GatherCurrent(pages);
    var change := Diff(current, cidrs);
    if change.toAdd == {} && change.toRemove == {} {
      return None;
    }
    var r := BuildModifyRequest(prefixListId, currentVersion, change);
    return Some(r);
  }

  /** The parameters of the `create_managed_prefix_list` call (tags left out). */
  datatype CreateRequest = CreateRequest(
    prefixListName: string,
    entries: seq<Entry>,
    maxEntries: int,
    addressFamily: string)

  function Min(a: int, b: int): int
  {
    if a <= b then a else b
  }

  /**
   * `create_prefix_list`: the first 100 CIDRs go into the create call with a
   * capacity of `min(len + 20, maxEntries)`; any others follow in one modify
   * request against the new list's id and version, as the create response gives them.
   */
  function CreatePrefixList(name: string, cidrs: seq<Block>, addressFamily: string, maxEntries: int,
                            createdId: string, createdVersion: int): (r: (CreateRequest, Option<ModifyRequest>))
    ensures |r.0.entries| == Min(InitialEntryLimit, |cidrs|)
    ensures r.0.maxEntries == Min(|cidrs| + CapacityHeadroom, maxEntries)
    ensures |cidrs| <= r.0.maxEntries <==> |cidrs| <= maxEntries
    ensures r.0.prefixListName == name && r.0.addressFamily == addressFamily
    ensures r.1.Some? <==> |cidrs| > InitialEntryLimit
    ensures r.1.Some? ==>
      && r.1.value.prefixListId == createdId && r.1.value.currentVersion == createdVersion
      && r.1.value.removeEntries == None && r.1.value.addEntries.Some?
      && forall e | e in r.1.value.addEntries.value :: e.description == Some(EntryDescription)
    ensures forall e | e in r.0.entries :: e.description == Some(EntryDescription)
    ensures EntryCidrsSeq(r.0.entries) + (if r.1.Some? then EntryCidrsSeq(r.1.value.addEntries.value) else []) == cidrs
  {
    var n := Min(InitialEntryLimit, |cidrs|);
    var initial, remaining := cidrs[..n], cidrs[n..];
    assert initial + remaining == cidrs;
    EntryCidrsSeqDescribed(initial);
    EntryCidrsSeqDescribed(remaining);
    var create := CreateRequest(name, Described(initial), Min(|cidrs| + CapacityHeadroom, maxEntries), addressFamily);
    if remaining != [] then
      (create, Some(ModifyRequest(createdId, createdVersion, None, Some(Described(remaining)))))
    else
      (create, None)
  }

  /** The CIDRs of a sequence of entries, in order. */
  function EntryCidrsSeq(es: seq<Entry>): seq<Block>
  {
    seq(|es|, i requires 0 <= i < |es| => es[i].cidr)
  }

  lemma EntryCidrsSeqDescribed(cidrs: seq<Block>)
    ensures EntryCidrsSeq(Described(cidrs)) == cidrs
  {
  }

  /**
   * Once the create call and its follow-up have been applied, the list holds
   * exactly the desired CIDRs, so the next update finds nothing to change.
   */
  lemma CreateThenUpdateIsNoop(name: string, cidrs: seq<Block>, addressFamily: string, maxEntries: int,
                               createdId: string, createdVersion: int)
    ensures var r := CreatePrefixList(name, cidrs, addressFamily, maxEntries, createdId, createdVersion);
      var created := EntryCidrs(r.0.entries);
      var listed := if r.1.Some? then Apply(created, RequestChange(r.1.value)) else created;
      listed == Elements(cidrs) && Diff(listed, cidrs) == Change({}, {})
  {
    var r := CreatePrefixList(name, cidrs, addressFamily, maxEntries, createdId, createdVersion);
    var n := Min(InitialEntryLimit, |cidrs|);
    var initial, remaining := cidrs[..n], cidrs[n..];
    assert initial + remaining == cidrs;
    DescribedCidrs(initial);
    DescribedCidrs(remaining);
    assert Elements(cidrs) == Elements(initial) + Elements(remaining) by {
      forall c | c in Elements(cidrs) ensures c in Elements(initial) + Elements(remaining) {
        var i :| 0 <= i < |cidrs| && cidrs[i] == c;
        if i < n { assert initial[i] == c; } else { assert remaining[i - n] == c; }
      }
    }
  }

  /** What `describe_managed_prefix_lists` reports of one list. */
  datatype PrefixListInfo = PrefixListInfo(prefixListId: string, prefixListName: string)

  /**
   * `find_prefix_list`: the first list with the name; when the describe call
   * fails the list is reported as missing.
   */
  function FindPrefixList(described: Result<seq<PrefixListInfo>, string>, name: string): (r: Option<PrefixListInfo>)
    ensures described.Failure? ==> r == None
    ensures described.Success? ==> (r.None? <==> forall pl | pl in described.value :: pl.prefixListName != name)
    ensures r.Some? ==>
      described.Success? &&
      exists k | 0 <= k < |described.value| :: described.value[k] == r.value && r.value.prefixListName == name &&
        forall j | 0 <= j < k :: described.value[j].prefixListName != name
  {
    match described
    case Failure(_) => None
    case Success(lists) => FirstNamed(lists, name)
  }

  function FirstNamed(lists: seq<PrefixListInfo>, name: string): (r: Option<PrefixListInfo>)
    ensures r.None? <==> forall pl | pl in lists :: pl.prefixListName != name
    ensures r.Some? ==>
      exists k | 0 <= k < |lists| :: lists[k] == r.value && r.value.prefixListName == name &&
        forall j | 0 <= j < k :: lists[j].prefixListName != name
  {
    if lists == [] then None
    else if lists[0].prefixListName == name then Some(lists[0])
    else
      var r := FirstNamed(lists[1..], name);
      assert forall pl | pl in lists[1..] :: pl in lists;
      assert forall pl | pl in lists :: pl == lists[0] || pl in lists[1..];
      if r.Some? then
        var k :| 0 <= k < |lists[1..]| && lists[1..][k] == r.value && r.value.prefixListName == name &&
          forall j | 0 <= j < k :: lists[1..][j].prefixListName != name;
        assert lists[k + 1] == r.value;
        assert forall j | 1 <= j < k + 1 :: lists[j] == lists[1..][j - 1];
        r
      else r
  }

  /** What the managed-list service tells the function about one list during one run. */
  datatype ListService = ListService(
    described: Result<seq<PrefixListInfo>, string>,
    pages: seq<Page>,
    currentVersion: int,
    createdId: string,
    createdVersion: int)

  /** The write calls `manage_prefix_list` makes for one list. */
  datatype Action =
    | Updated(request: Option<ModifyRequest>)
    | Created(create: CreateRequest, followUp: Option<ModifyRequest>)

  /**
   * What `manage_prefix_list` promises for one list: an existing list gets at
   * most one modify request, none when it already holds exactly `cidrs`, and
   * otherwise one whose change is exactly the diff, so that it converges the
   * list to `cidrs`, carrying removals only when
   * something is removed and additions only when something is added; a missing
   * list is created.
   */
  predicate Manages(action: Action, name: string, cidrs: seq<Block>, addressFamily: string, maxEntries: int,
                    service: ListService)
    requires HasLast(service.pages)
  {
    var found := FindPrefixList(service.described, name);
    && (found.Some? <==> action.Updated?)
    && (action.Updated? ==>
          && (action.request.None? <==> ListedCidrs(service.pages) == Elements(cidrs))
          && (action.request.Some? ==>
                && action.request.value.prefixListId == found.value.prefixListId
                && action.request.value.currentVersion == service.currentVersion
                && RequestChange(action.request.value) == Diff(ListedCidrs(service.pages), cidrs)
                && (action.request.value.removeEntries.Some? <==>
                      Diff(ListedCidrs(service.pages), cidrs).toRemove != {})
                && (action.request.value.addEntries.Some? <==>
                      Diff(ListedCidrs(service.pages), cidrs).toAdd != {})
                && Apply(ListedCidrs(service.pages), RequestChange(action.request.value)) == Elements(cidrs)))
    && (action.Created? ==>
          (action.create, action.followUp) ==
            CreatePrefixList(name, cidrs, addressFamily, maxEntries, service.createdId, service.createdVersion))
  }

  /** `manage_prefix_list`: update the list with the name when it exists, create it otherwise. */
  method ManagePrefixList(name: string, cidrs: seq<Block>, addressFamily: string, maxEntries: int,
                          service: ListService)
    returns (action: Action)
    requires HasLast(service.pages)
    ensures Manages(action, name, cidrs, addressFamily, maxEntries, service)
  {
    var existing := FindPrefixList(service.described, name);
    if existing.Some? {
      var req := UpdatePrefixList(existing.value.prefixListId, cidrs, service.pages, service.currentVersion);
      action := Updated(req);
    } else {
      var r := CreatePrefixList(name, cidrs, addressFamily, maxEntries, service.createdId, service.createdVersion);
      action := Created(r.0, r.1);
    }
  }
}

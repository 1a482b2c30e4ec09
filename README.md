# UptimeRobot prefix-list updater: a Dafny model of the reconciliation step

The Lambda function `lambda_function.py` keeps two AWS managed prefix lists,
`uptimerobot4` (IPv4) and `uptimerobot6` (IPv6), in step with the addresses
that the hostname `ip.uptimerobot.com` resolves to. Each run:

1. takes the resolver's answers and splits them into an IPv4 list and an IPv6
   list. It keeps the first occurrence of each address and drops text that is
   not an address. It fails when neither list has anything in it;
2. for each family that has addresses, parses them and collapses them into CIDR
   blocks with `ipaddress.collapse_addresses`;
3. if the family's prefix list exists, reads its current entries page by page,
   diffs them against the desired blocks, and sends one modify request, or
   none when nothing changes. If the list does not exist, it creates the list
   with the first 100 blocks and a capacity of `min(len + 20, MAX_ENTRIES)`,
   then adds the other blocks in one follow-up modify request.

This project models those steps and proves what they promise.

Modules, one per component:

- `Resolve` (`resolve.dfy`): the answers are `AddrText` values: an IPv4
  address, an IPv6 address, or other text. `Partition` is the de-duplicating
  loop. `Fetch` adds the two failure cases.
- `Cidr` (`cidr.dfy`): blocks are `(base, prefixLen)` pairs over a `bits`-bit
  address space. It specifies the documented behaviour of `collapse_addresses`:
  blocks that are valid and aligned, in ascending order, that cover exactly the
  input, where no block can merge with its sibling, and with no more blocks
  than addresses. A simple binary-trie collapse (`Tree`, `Collapse`) meets that
  specification. It is not CPython's algorithm, but `CollapseUnique` proves that
  the specification allows only one result. So any correct collapse, CPython's
  included, returns the same blocks as the model.
- `Consolidate` (`consolidate.dfy`): the parse loop, which skips entries that do
  not parse in the requested family, followed by the collapse.
- `Reconcile` (`reconcile.dfy`): the pagination loop, the set diff, the modify
  request built step by step, the create plan, `find_prefix_list` and
  `manage_prefix_list`.
- `Handler` (`handler.dfy`): `lambda_handler` and its per-family skip.
- `Arith`, `Seqs`, `Wrappers`: powers of two and division facts, sequence
  helpers, and the Option/Result types.

The foreign services are inputs:

- `socket.getaddrinfo` is a `Lookup` value: the answers, or a resolution error.
- For each list, `ListService` holds what the EC2 API returns during one run:
  - the `describe_managed_prefix_lists` result;
  - the pages of `get_managed_prefix_list_entries`;
  - the current version;
  - the id and version from the create response.
- The model returns the requests the function would send.
- In the list-entry pages, page k is the service's answer to the k-th request.
  `GatherCurrent` also returns the `NextToken` sent with each request.
- `MAX_ENTRIES_PER_SECURITY_GROUP` is the `maxEntries` parameter. Its default
  of 120 is `Reconcile.DefaultMaxEntries`.

Where one might expect a quota check, a retry on a stale version, or adds
ordered before removes, the code has none, and the model follows the code:

- No check rejects a desired set larger than the maximum before a write.
  `CreatePrefixList` proves that the new list can hold every block exactly when
  their number n is at most `maxEntries`. Otherwise the list is created too
  small: when `maxEntries < min(n, 100)` the create call itself carries more
  entries than the capacity, and otherwise the follow-up request overflows it.
- No retry happens on a stale version. The version is passed through as read.
- Removals and additions go in one request. Nothing orders adds before removes.
- One `getaddrinfo` call serves both families, so a resolution error fails the
  whole fetch. A family with no answers is only skipped.
- When managing the IPv4 list raises an error, the handler stops and never
  reaches IPv6. The model has no service errors, so this is not modelled.

## Model

| member | source | states |
|---|---|---|
| `Resolve.Partition` | lambda_function.py:86-101 | The IPv4 list is the first occurrences of the IPv4 answers, and the IPv6 list likewise for IPv6; the loop matches these definitions step by step |
| `Resolve.PartitionSpec` | lambda_function.py:86-101 | Each list holds exactly the answers of its own family; invalid entries are in neither; no list holds an address twice; kept entries are in first-occurrence order |
| `Resolve.V4s` | lambda_function.py:90-91 | The IPv4 answers are exactly the answers that are IPv4 addresses |
| `Resolve.V6s` | lambda_function.py:90-95 | The IPv6 answers are exactly the answers that are IPv6 addresses |
| `Resolve.Distinct` | lambda_function.py:92-98 | The de-duplicated list has the same members as its input and holds no element twice |
| `Resolve.DistinctOrder` | lambda_function.py:92-98 | Kept elements appear in the order of their first occurrence in the input |
| `Resolve.FilterFirstIndexMonotone` | lambda_function.py:86-98 | Between two addresses of one family, first-occurrence order is the same in that family's answers as in all answers |
| `Resolve.HasAddressIff` | lambda_function.py:105-106 | The answers hold an address exactly when the IPv4 or the IPv6 answers are non-empty |
| `Resolve.Fetch` | lambda_function.py:82-116 | A resolution error fails with DnsFailure; answers without any address fail with NoAddresses; otherwise both partitioned lists are returned and at least one is non-empty |
| `Consolidate.ParseAs` | lambda_function.py:125-133 | Parsing succeeds exactly for an IPv4 text when the version is 4, and for an IPv6 text for any other version; the value fits the family's width |
| `Consolidate.Parsed` | lambda_function.py:123-133 | Every parsed address is below 2^32 or 2^128, as the version selects |
| `Consolidate.ParsedSpec` | lambda_function.py:123-133 | Parsing yields no more addresses than inputs, and exactly the values of the entries that parse (unparsable ones are skipped) |
| `Consolidate.ParseAll` | lambda_function.py:123-133 | The parse loop builds exactly the parsed-address sequence |
| `Consolidate.AddressSet` | lambda_function.py:123-136 | The address set holds exactly the values of parsable entries, all in range, and has no more elements than inputs |
| `Consolidate.ConsolidateIps` | lambda_function.py:118-146 | The output blocks cover exactly the parsable input addresses; they are valid, maximal and ascending; there are no more of them than inputs |
| `Consolidate.ConsolidateExample` | lambda_function.py:118-146 | The addresses 69.162.124.226 to 69.162.124.229 consolidate to exactly 69.162.124.226/31 and 69.162.124.228/31 |
| `Cidr.Collapse` | lambda_function.py:136 | The collapse is valid, aligned, ascending and non-overlapping blocks, each unable to merge with its sibling, covering exactly the input set, with no more blocks than addresses |
| `Cidr.CollapseRoundTrip` | lambda_function.py:136 | Expanding the collapse gives back the input set; collapsing that again gives the same blocks |
| `Cidr.TreeShape` | lambda_function.py:136 | Every block of a trie node's collapse is valid and inside the node, and the blocks are ascending and disjoint |
| `Cidr.TreeCovers` | lambda_function.py:136 | A node's collapse covers an address exactly when it is in the set and inside the node |
| `Cidr.TreeMaximal` | lambda_function.py:136 | Every block smaller than its node has a parent block that is not wholly in the set |
| `Cidr.HalfTreeMaximal` | lambda_function.py:136 | When a node is not full, the collapse of either half keeps that maximality one level up |
| `Cidr.TreeCount` | lambda_function.py:136-144 | A node's collapse has at most as many blocks as the set has addresses inside the node |
| `Cidr.CollapseBlocks` | lambda_function.py:136 | A block list meeting the collapse contract holds exactly the valid blocks that lie wholly in the set and whose parent block does not |
| `Cidr.OrderedUnique` | lambda_function.py:136 | Two ascending block lists with the same members are equal |
| `Cidr.CollapseUnique` | lambda_function.py:136 | Any block list meeting the collapse contract equals the model's collapse, so the contract fixes the result |
| `Reconcile.FirstLast` | lambda_function.py:260-262 | The first page without a usable NextToken is a last page, and no earlier page is |
| `Reconcile.CidrsOfSpec` | lambda_function.py:258 | The gathered set is the union of the `Cidr` values of all entries of all pages read |
| `Reconcile.GatherCurrent` | lambda_function.py:250-262 | The loop reads pages up to and including the first last page, sends no token first and then each page's token, and collects exactly the listed CIDRs |
| `Reconcile.Diff` | lambda_function.py:263-273 | The add and remove sets are disjoint; the add set avoids the current set and the remove set is inside it; `(current - to_remove) + to_add == new`; both are empty exactly when current equals desired |
| `Reconcile.DiffIdempotent` | lambda_function.py:263-273 | After applying the diff, a second diff is empty |
| `Reconcile.DiffExample` | lambda_function.py:263-266 | Current {A,B,C} and desired [B,C,D] give add {D} and remove {A} |
| `Reconcile.Enumerate` | lambda_function.py:294 | Iterating a set yields each of its elements exactly once |
| `Reconcile.DescribedCidrs` | lambda_function.py:297-300 | The described entries carry exactly the given CIDRs |
| `Reconcile.BuildModifyRequest` | lambda_function.py:288-300 | The request carries the list id and version; RemoveEntries only when something is removed, AddEntries only when something is added; no duplicates; its change is exactly the diff |
| `Reconcile.UpdatePrefixList` | lambda_function.py:245-304 | No request when the list already holds exactly the desired set; otherwise one request, which carries RemoveEntries exactly when the diff removes something and AddEntries exactly when it adds something, and applying it to the listed set gives the desired set |
| `Reconcile.CreatePrefixList` | lambda_function.py:191-243 | The create call gets min(100, n) entries with capacity min(n + 20, max); the rest go in one follow-up add only when n > 100; every entry of both batches carries the fixed description; in order, both batches together give exactly the CIDRs; the capacity holds every CIDR exactly when n <= max |
| `Reconcile.EntryCidrsSeqDescribed` | lambda_function.py:199-200 | Describing CIDRs as entries keeps them and their order |
| `Reconcile.CreateThenUpdateIsNoop` | lambda_function.py:196-241 | After the create and its follow-up are applied, the list holds exactly the desired set, and an update finds nothing to change |
| `Reconcile.FirstNamed` | lambda_function.py:179-185 | Returns the first list with the name; returns none exactly when no list has it |
| `Reconcile.FindPrefixList` | lambda_function.py:173-189 | A failed describe call reports the list as missing; otherwise the first list with the name is returned |
| `Reconcile.ManagePrefixList` | lambda_function.py:148-171 | An existing list is updated (a request exactly when the listed set differs from the desired set, whose change is exactly the diff, with RemoveEntries and AddEntries present exactly when non-empty) and converges to the desired set; a missing list gets the create plan |
| `Handler.FamilyParses` | lambda_function.py:35-49 | The partitioned IPv4 (IPv6) list, parsed as version 4 (6), gives exactly the IPv4 (IPv6) addresses of the answers |
| `Handler.NonEmptyFamilyKeepsBlocks` | lambda_function.py:35-39 | A family whose addresses all parse collapses to a non-empty block list exactly when it has addresses |
| `Handler.ProcessFamily` | lambda_function.py:34-52 | A family without addresses is skipped; its blocks are the collapse of its address set and cover exactly its addresses; a family with addresses has its list managed with them |
| `Handler.LambdaHandler` | lambda_function.py:20-73 | The response is a success, with status code 200, exactly when the answers hold an address; a failed fetch writes nothing and responds with the error; otherwise each family's blocks are the collapse of that family's addresses in the answers and cover exactly them, each family gets an action exactly when it has addresses, and the counts are reported |

## Left out

- The DNS lookup itself, `socket.getaddrinfo`, is network I/O. Its result is the `Lookup` input.
- Textual address parsing and formatting by `ipaddress` are library behaviour:
  - addresses are numbers, and address texts are `AddrText` values;
  - `str(network)` is not modelled, so CIDRs are compared as `Block` values;
  - de-duplicating the texts equals de-duplicating the values, because the resolver returns canonical text.
- `collapse_addresses` is modelled by its documented result, not by CPython's code. `Cidr.CollapseUnique` shows that this result is unique.
- All boto3 calls are foreign network services. Their results are `ListService` inputs, and the model returns the requests instead of sending them.
- Service errors are not modelled. These are the exceptions that `manage_prefix_list` re-raises, which end the run with status 500 and skip the IPv6 list.
- The 30-try polling loop in `create_prefix_list` (lines 226-233) waits on remote state and depends on timing.
- Tags and the unused `description` parameter of `create_prefix_list` are left out. Every entry gets the fixed `EntryDescription`.
- `find_prefix_list` reads only the first response of `describe_managed_prefix_lists`. The model searches the list it is given.
- `Reconcile.ManagePrefixList` and `Reconcile.Manages` require a last page among the service's pages even when the list is missing and no page is read. Any service can meet this with a single last page, so no create case is excluded.
- `Reconcile.GatherCurrent` requires a last page among the given pages. The source loops until the service sends one, so the model assumes the service always does.
- Logging, the JSON text of the response body, and reading the environment variable are left out. The handler returns a `Response` value, and the maximum is a parameter.
- Concurrency: the version token is only passed through.

# rdfquery query network, in Dafny

This project models the core of rdfQuery's `jquery.rdf.js`. rdfQuery is a jQuery plugin that keeps RDF triples in a
databank and answers triple-pattern queries over it. A query is a chain of nodes. A top node has children. Each child
filters its parent's result rows with a triple pattern (a join), with an optional pattern (a left outer join) or with a
predicate over the bindings. Nodes can also be combined into unions. The databank keeps every node up to date as
triples arrive. It does this incrementally, in the style of a RETE network:

- each pattern node subscribes under a key of its bound terms;
- an inserted triple is tested against the subscribed patterns;
- a match goes into the node's alpha memory and is right-activated;
- new rows flow down through children (left activation) and into containing unions.

The central property proved is that this incremental propagation is sound. Call a network consistent when every
node's rows hold, counted with repeats, exactly what recomputing that node from its parent's or members' current rows
and its alpha memory gives. Inserting triples, adding nodes and forming unions keep a consistent network consistent.
The two propagation steps that break this as written are reported under Findings.

The modules follow the source's layers:

- `Terms` (`terms.dfy`): resources, blank nodes, literals and triples, with their canonical strings and blank-node
  ids.
- `Matching` (`matching.dfy`): patterns, `testResource`, `testTriple`, `findMatches`, `fillFilter` and the token
  count check of `parseFilter`.
- `Join` (`join.dfy`): `mergeMatches`, the join of result rows with new matches, with and without the optional
  pass-through.
- `TripleStore` (`store.dfy`): the per-subject triple buckets of a databank, with `add`, `triples` and `size`.
- `QueryIndex` (`index.dfy`): `registerQuery` and the eight-key lookup of `addToDatabankQueries`.
- `Network` (`network.dfy`): the node arena and the activation functions `leftActivate`, `updateQuery`,
  `resetQuery`, `rightActivate` and `addToQuery`.
- `Consistency` (`consistency.dfy`): consistency of the network, and the proof that `updateQuery` and
  `rightActivate` grow each node by exactly what its inputs' growth gives it.
- `Databank` (`databank.dfy`): a databank with its queries. It holds the validity invariant, insertion and
  construction from a triple list.
- `Query` (`query.dfy`): `$.rdf()` top nodes, `where`, `optional`, the function form of `filter`, and `add` with
  pattern text.
- `Unions` (`unions.dfy`): the two query-union branches of `add`.
- `Findings` (`findings.dfy`): two places where the propagation as written loses result rows, and one where a union
  that feeds its own member makes `resetQuery` recurse without end. Each comes with the corrected definition that the
  rest of the model uses.

JavaScript object identity is modelled by node handles: a query is an index into an arena of nodes. Terms and triples
are memoised by their canonical string in the source, so object identity of terms and triples is modelled by
structural equality. The clock that seeds blank-node ids becomes a counter parameter. Predicate filters are
JavaScript functions in the source; here they are handles passed to an `eval` parameter.

## Model

| member | source | states |
|---|---|---|
| Terms.ToStringInjective | trunk/jquery.rdf.js:927-935 | Two well-formed terms with the same canonical string (`<iri>`, `_:id`, `"v"`, `"v"@lang`, `"v"^^<dt>`) are the same term. Well-formed means a literal has at most one of language and datatype and neither holds a quote. The value may hold quotes, because the last quote ends it. This is what lets the source key its memo tables and its store by a term's string. |
| Terms.HexRoundTrip | trunk/jquery.rdf.js:27-31 | The base-16 text of the blank-node counter reads back as the counter, so the text loses nothing. |
| Terms.FreshIdsDistinct | trunk/jquery.rdf.js:27-31 | Two different counter values give different blank-node ids `b<hex>`. |
| Terms.BlankFromText | trunk/jquery.rdf.js:844-853 | `[]` makes a fresh blank node from the next counter value. Text starting `_:` names the blank node after the prefix and leaves the counter alone. Anything else is an error. |
| Terms.BlankRoundTrip | trunk/jquery.rdf.js:855-857 | Parsing a blank node's string gives the same blank node back, with the counter untouched. |
| Matching.TestResource | trunk/jquery.rdf.js:118-131 | A bound slot succeeds exactly on its own term and keeps the bindings. A variable succeeds unless it is already bound to another term, and then binds the variable to this term. Earlier bindings are always kept. |
| Matching.TestTripleCorrect | trunk/jquery.rdf.js:133-145 | `testTriple` succeeds exactly when the pattern admits the triple (bound slots equal, repeated variables agree). The bindings then name exactly the pattern's variables, each bound to the term in its position. |
| Matching.RepeatedVariable | trunk/jquery.rdf.js:118-131 | A pattern `?x p ?x` matches `a p b` only when `a == b`, binding `x` to `a`. |
| Matching.FindMatches | trunk/jquery.rdf.js:147-152 | The alpha memory holds one single-triple match for each listed triple that matches, with that triple's bindings, and nothing else. A list without repeated triples gives matches without repeats. |
| Matching.FillFilterVars | trunk/jquery.rdf.js:101-116 | The filled pattern's variables are the pattern's variables minus the bound names. |
| Matching.FillFilterAdmits | trunk/jquery.rdf.js:101-116 | The filled pattern admits a triple exactly when the original pattern admits it and each bound variable's position holds its bound term. |
| Matching.GroundTriple | trunk/jquery.rdf.js:442-444 | A pattern with all three slots bound admits exactly one triple. |
| Matching.Fills | trunk/jquery.rdf.js:433-441 | The triples added from pattern text are exactly the fully bound fillings of the pattern by the result rows' bindings. |
| Matching.FillsAdmitted | trunk/jquery.rdf.js:433-441 | Every triple added from pattern text is admitted by the pattern, and some result row binds every variable to the term in its position. |
| Matching.ParseFilter | trunk/jquery.rdf.js:83-99 | A filter is three tokens with an optional trailing `.`. Any other count is malformed. It succeeds exactly when every token is a variable or resolves. The slots and the optional flag are the ones given. |
| Join.Dedup | trunk/jquery.rdf.js:174 | `$.unique` keeps each triple once and keeps every triple. |
| Join.JoinRow | trunk/jquery.rdf.js:171-176 | A joined row has the union of the two rows' bindings, extends both rows, and lists the triples of both without repeats. |
| Join.CompatibleMatches | trunk/jquery.rdf.js:156-168 | A new match is kept exactly when every binding it shares with the existing row is equal. |
| Join.MergeOne | trunk/jquery.rdf.js:155-180 | One existing row yields its joins with every compatible new match. An optional join with no compatible match yields the row itself, and a plain join yields nothing. |
| Join.MergeMatches | trunk/jquery.rdf.js:154-181 | Every result row extends an existing row. |
| Join.MergeSize | trunk/jquery.rdf.js:154-181 | A plain join yields at most one row per pair, and an optional join keeps at least one row per existing row. |
| Join.MergeMembership | trunk/jquery.rdf.js:154-181 | A row is in the merge exactly when it joins an existing row with a compatible new match, or, for an optional join, it is an existing row that no new match is compatible with. |
| Join.MergeSingle | trunk/jquery.rdf.js:279-281 | Merging with one new match gives at most one row per existing row, each the join of a compatible existing row with that match. |
| TripleStore.TriplesMembership | trunk/jquery.rdf.js:661-674 | `triples()` lists exactly the stored triples. |
| TripleStore.Add | trunk/jquery.rdf.js:644-651 | A triple already in its subject's bucket changes nothing. Otherwise it is appended to that bucket and the store holds exactly the old triples and the new one. Other buckets are untouched. |
| TripleStore.TriplesNoDuplicates | trunk/jquery.rdf.js:661-674 | `triples()` lists each stored triple once. |
| TripleStore.AddSize | trunk/jquery.rdf.js:676-678 | `size()` grows by one exactly when the added triple was not stored yet. |
| QueryIndex.Register | trunk/jquery.rdf.js:190-199 | Registration appends the node to the list under its pattern's key and leaves every other key's list alone. |
| QueryIndex.AdmitsKey | trunk/jquery.rdf.js:208-254 | A pattern that matches a triple is registered under a key that the triple's lookup visits. |
| QueryIndex.CandidatesAdmit | trunk/jquery.rdf.js:212-246 | The eight keys looked up for a triple are distinct and are exactly the keys whose bound slots agree with the triple. |
| QueryIndex.NotifiedMembership | trunk/jquery.rdf.js:208-254 | A node is notified exactly when it is registered under a key that admits the triple. |
| QueryIndex.NotifiedCount | trunk/jquery.rdf.js:208-254 | In a well-indexed databank each pattern node is notified exactly once when its key admits the triple, and otherwise not at all. |
| QueryIndex.RegisterWellIndexed | trunk/jquery.rdf.js:183-206 | Registering a new pattern node keeps every node listed once, under its own pattern's key. |
| Network.FilterRows | trunk/jquery.rdf.js:293-296 | A predicate node keeps exactly the rows whose bindings satisfy the predicate. |
| Network.LeftActivate | trunk/jquery.rdf.js:287-306 | A node gains exactly the rows its activation computes. Nodes it does not reach are unchanged, and no node loses rows. |
| Network.UpdateQuery | trunk/jquery.rdf.js:308-318 | New rows are appended to the node. Nodes it does not reach are unchanged and no node loses rows. An empty list of new rows changes nothing. |
| Network.UnionGrowth | trunk/jquery.rdf.js:313-315 | Each union containing the node gains at least the new rows. |
| Network.UpdateChildren | trunk/jquery.rdf.js:310-312 | Left-activating the children changes only nodes reached from them, and removes no rows. |
| Network.UpdateUnions | trunk/jquery.rdf.js:313-315 | Only nodes reached from the containing unions change, and none loses rows. |
| Network.UnionsGrowth | trunk/jquery.rdf.js:313-315 | Each containing union from the given position on gains at least the new rows. |
| Network.ResetQuery | trunk/jquery.rdf.js:320-328 | Exactly the node and every node reached from it through children and unions are emptied. |
| Network.ResetChildren | trunk/jquery.rdf.js:322-324 | Exactly the nodes reached from the children are emptied. |
| Network.ResetUnions | trunk/jquery.rdf.js:325-327 | Exactly the nodes reached from the containing unions are emptied. |
| Network.ResetFinishes | trunk/jquery.rdf.js:320-328 | Followed call by call on an arena whose links point forward, `resetQuery` ends within as many nested calls as there are nodes from `q` on, and empties exactly what `ResetQuery` empties. |
| Network.ReachLast | trunk/jquery.rdf.js:320-328 | A node is reached from `q` exactly when an earlier node reached from `q` feeds it, as a child or a containing union. |
| Network.PlainRightActivate | trunk/jquery.rdf.js:277-284 | A pattern node that is not optional gains exactly the joins of the new match with its parent's rows (the match alone under a top node), at most one per parent row. Unreached nodes are unchanged and no node loses rows. |
| Network.OptionalRightActivate | trunk/jquery.rdf.js:274-276 | As written, an optional node ends with its whole alpha memory joined to its parent's rows (the memory alone under a top node). Nodes it does not reach are unchanged. |
| Network.RightActivate | trunk/jquery.rdf.js:272-285 | A plain pattern node gains the joins of the new match with its parent's rows (the match alone under a top node), at most one per parent row. An optional node's rows become its full activation. Unreached nodes are unchanged. |
| Network.RightActivateCorrected | trunk/jquery.rdf.js:272-285 | As `rightActivate`, except that for an optional node every node it reaches ends equal to its own activation. |
| Network.AddToQuery | trunk/jquery.rdf.js:262-270 | With the corrected right activation: a triple that fails the node's pattern changes nothing. A matching triple appends its one match to the alpha memory, and only nodes reached from the node change rows. |
| Consistency.ActivationSplit | trunk/jquery.rdf.js:287-306 | A node's activation over grown rows is its activation over the old rows plus what the growth of its parent or members adds. |
| Consistency.GainOnlyAt | trunk/jquery.rdf.js:308-315 | When only node `q` gains rows, a node's activation gains one batch of derived rows per time it is `q`'s child and one copy of the rows per time it is a union containing `q`. |
| Consistency.MergeNewsSplit | trunk/jquery.rdf.js:154-181 | Joining existing rows with two batches of new matches gives the joins with the first batch and the joins with the second, counted with repeats. |
| Consistency.UpdateQueryGain | trunk/jquery.rdf.js:308-318 | After `updateQuery` every node has grown by exactly what its inputs' growth adds to its activation, and the updated node also by the new rows. |
| Consistency.UpdateChildrenGain | trunk/jquery.rdf.js:310-312 | Left-activating the children from a position on grows each node by its inputs' growth plus the rows still owed to the children not yet visited. |
| Consistency.UpdateUnionsGain | trunk/jquery.rdf.js:313-315 | Updating the containing unions from a position on grows each node by its inputs' growth plus the rows still owed to the unions not yet visited. |
| Consistency.PlainRightActivateConsistent | trunk/jquery.rdf.js:277-284 | A new match at a pattern node that is not optional leaves a consistent network consistent under the grown alpha memory. |
| Consistency.OptionalRightActivateConsistent | trunk/jquery.rdf.js:274-276 | The corrected right activation of an optional node leaves a consistent network consistent under the grown alpha memory. |
| Consistency.AddToQueryConsistent | trunk/jquery.rdf.js:262-285 | Feeding a triple to a pattern node, with the corrected right activation, keeps a consistent network consistent, whether or not the triple matches. |
| Consistency.GrowConsistent | trunk/jquery.rdf.js:346-387 | Appending a node whose rows hold its activation keeps a consistent network consistent, when the old nodes keep their kinds, memories and rows. |
| Databank.EmptyDatabank | trunk/jquery.rdf.js:561-577 | An empty databank is valid and holds no triples and no queries. |
| Databank.OnlyTopReachesTopChild | trunk/jquery.rdf.js:297-298 | A pattern node hanging off a top node is reached only from that top node. So its rows stay its alpha memory. |
| Databank.NotifiedFacts | trunk/jquery.rdf.js:208-254 | The notified nodes are distinct pattern nodes, and every other node gets nothing from the triple. |
| Databank.NotifyAll | trunk/jquery.rdf.js:256-260 | Each notified node's alpha memory gains the triple's match, and no other alpha memory changes. A consistent network stays consistent. |
| Databank.Insert | trunk/jquery.rdf.js:644-651 | A stored triple changes nothing. A new triple is stored, its size grows by one, each pattern node's alpha memory gains exactly its match, and the databank stays valid. Up-to-date rows stay up to date. |
| Databank.InsertAll | trunk/jquery.rdf.js:570-572 | Adding a triple list stores exactly the old and listed triples. Size grows by the number of distinct new ones, and the queries stay valid. Up-to-date rows stay up to date. |
| Databank.MakeDatabank | trunk/jquery.rdf.js:561-577 | A databank built from a list holds exactly the listed triples, its size is their number without repeats, and it is valid and up to date. |
| Query.AddTop | trunk/jquery.rdf.js:346-387 | `$.rdf()` adds a top node with no rows and keeps the databank valid. |
| Query.AddTopUpToDate | trunk/jquery.rdf.js:346-387 | A new top node keeps an up-to-date databank up to date. |
| Query.InitialAlphaExact | trunk/jquery.rdf.js:380-383 | A new pattern node's alpha memory holds exactly one match per stored triple it admits, with no match listed twice. |
| Query.Where | trunk/jquery.rdf.js:463-475 | The new child is registered if it has a pattern, starts with an alpha memory holding exactly one match per stored triple it admits and no repeats, and its rows are its parent's rows joined (or filtered, or its alpha memory under a top node). The parent lists it as a child and the databank stays valid. |
| Query.WhereUpToDate | trunk/jquery.rdf.js:463-475 | A new `where` child starts with exactly the rows it computes, so an up-to-date databank stays up to date. |
| Query.WhereText | trunk/jquery.rdf.js:463-479 | Pattern text that does not parse is an error. Otherwise the new node carries the parsed pattern with the requested optional flag. |
| Query.AddPattern | trunk/jquery.rdf.js:427-444 | A ground pattern adds its one triple. Otherwise each result row's filling that is ground is added. The store ends with exactly these, each admitted by the pattern, and the databank stays valid. Up-to-date rows stay up to date. |
| Unions.NewUnion | trunk/jquery.rdf.js:418-422 | A union of two queries starts with the rows of the first followed by those of the second. Both list it among their unions. |
| Unions.NewUnionUpToDate | trunk/jquery.rdf.js:418-422 | A new union keeps an up-to-date databank up to date. |
| Unions.ExtendUnion | trunk/jquery.rdf.js:423-426 | Adding a member to an existing union, as written, links it both ways and leaves every row as it was. |
| Unions.ExtendUnionCorrected | trunk/jquery.rdf.js:423-426 | Adding a member and recomputing makes the union the concatenation of all its members' rows. Every node it reaches equals its activation, and every other node is unchanged. |
| Unions.ExtendUnionChecked | trunk/jquery.rdf.js:423-426 | Adding a member that is not older than the union is refused, and so is every member the union already feeds. Any other member is added by the corrected extension. |
| Unions.ExtendUnionCorrectedUpToDate | trunk/jquery.rdf.js:423-426 | The corrected union extension keeps an up-to-date databank up to date. |
| Findings.OptionalUnionLosesRows | trunk/jquery.rdf.js:272-276 | An optional node inside a union: the written right activation leaves the union with only the optional node's rows. The corrected one keeps the other member's rows too. |
| Findings.OptionalUnionInconsistent | trunk/jquery.rdf.js:272-276 | As written, that right activation leaves the network inconsistent whenever the union's other member has rows. |
| Findings.ExtendUnionMissesRows | trunk/jquery.rdf.js:423-426 | After the written union extension the union still equals its members' rows exactly when the new member has none. After the corrected one it always does. |
| Findings.CycleNeverEnds | trunk/jquery.rdf.js:320-328 | When a node lists a union among its unions and that union lists the node among its children, the call-by-call reset of the node does not end within any number of steps. |
| Findings.ExtendByOwnChild | trunk/jquery.rdf.js:423-426 | Extending a union with one of its own `where` or `optional` children, as written, links the two so that resetting the child never ends. |
| Findings.ExtendedResetEnds | trunk/jquery.rdf.js:320-328 | After the corrected extension, which takes only members older than the union, the call-by-call reset ends from every node and empties what `ResetQuery` empties. |
| Findings.ExtendUnionOutOfDate | trunk/jquery.rdf.js:423-426 | As written, extending an up-to-date union with a member that has rows leaves the databank out of date. The corrected extension keeps it up to date. |

## Left out

- `jquery.rdfa.js`, the gleaners (`$.fn.rdf`, lines 541-550) and the RDFa reading are outside this model.
- `$.uri`, CURIE expansion and `$.typedValue` are not modelled. This covers the resolution of relative IRIs against a
  base and the Turtle-like parsing of triple strings (lines 24-25, 33-81, 692-724, 774-807). Term resolution is a
  `resolve` parameter of `ParseFilter`. Triple text is taken as already split into tokens.
- Literal construction (`$.rdf.literal`, lines 884-925) is not modelled: the auto-typing of `5` as an `xsd:integer`
  and `true` as an `xsd:boolean`, the parsing of `"v"@en` and `"v"^^<dt>` text, the `Malformed Literal` error on
  other text, and the canonicalising of typed values through `$.typedValue`. Literals enter the model as terms
  already built.
- The clock seed of `blankNodeSeed` (`new Date().getTime() % 1000`) is a counter parameter.
- Matching.ParseFilter: models the token count and the variable/term split only; the term parser is the `resolve` parameter.
- `base` and `prefix` (lines 389-405, 579-623) are configuration lookups and are not modelled.
- The RegExp and value forms of `filter` (lines 484-492) are not modelled on their own. They build a predicate
  function, and every predicate is modelled through the `eval` parameter together with the function form.
- Result accessors that only read (`bindings`, `triples`, `get`, `each`, `map`, `jquery`, `end`, `size` of a query,
  and `toString`) are not modelled. `reset` (lines 501-507) is not modelled either.
- Databank unions (lines 411-419, 629-637, 652-656, 664-670), and with them the union branches of `registerQuery` and
  `addToDatabankQueries`, are not modelled. Every query here shares one databank.
- Bindings are plain JavaScript objects keyed by variable name in the source. A variable named like an inherited
  `Object.prototype` property, such as `?constructor`, already looks bound there: `testResource` rejects every term
  for it (line 120) and `fillFilter` substitutes the inherited value (lines 103-114). The model keeps bindings in a map
  and treats such names as ordinary variables. The query index is keyed by term strings, which start with `<`, `_:`
  or a quote and so cannot name an inherited property.
- Unions.ExtendUnion: requires the new member to be older than the union, which holds whenever the union is extended with a query built before it. A member built later is not modelled. That covers the chained form `a.add(c).add($.rdf().where(...))`, whose new member is newer than the union but not fed by it, and a member the union feeds, which makes the source recurse without end (see Findings).
- Unions.ExtendUnionChecked: refuses every member newer than the union, including one the union does not feed, such as the new query in `a.add(c).add($.rdf().where(...))`. The source accepts that member without harm; only a member the union feeds is evidently wrong.
- Unions.NewUnion: requires the first query not to be a top node or a union, and the second not to be a top node; these are the conditions under which `add` takes the new-union branch rather than a databank merge or the extension branch.
- Network.AddToQuery: uses the corrected right activation, so for an optional node inside a union the union keeps its other members' rows where the source drops them (see Findings). Consistency.AddToQueryConsistent, Databank.NotifyAll, Databank.Insert, Databank.InsertAll and Query.AddPattern build on it and inherit this.
- Network.UnionGrowth: states that each containing union gains at least the new rows rather than exactly, because a union reached along two paths gains them twice.
- The duplicate removal of `$.unique` in the join keeps the first occurrence of each triple. jQuery's own `$.unique` sorts DOM nodes and is only specified for them; for triples it removes repeats, and the order kept is not part of the contract.
- Consistency.Consistent: rows are compared with their activation counted with repeats, not in order, because a union receives its members' new rows in the order they arrive rather than member by member. Every consistency lemma states this order-free agreement.
- Node handles stand for JavaScript object identity. Two queries with the same structure are two nodes.

## Findings

| source | as written | input that shows it | evidently intended | confidence | as-written member | corrected member |
|---|---|---|---|---|---|---|
| trunk/jquery.rdf.js:272-276 | For an optional node, `rightActivate` calls `resetQuery`, which also empties every union containing the node. It then calls `leftActivate` on the node alone, which refills only the node and what it feeds. | An optional pattern node `q` under a top node, in a union `u` with another node `a` that has rows. Add a triple that `q` matches. `u` ends with only `q`'s rows, and `a`'s rows are gone from it. | Every node that was emptied is recomputed from its parent's or members' rows, so `u` holds `a`'s rows followed by `q`'s. | not executed | Findings.OptionalUnionLosesRows | Network.RightActivateCorrected |
| trunk/jquery.rdf.js:423-426 | Adding a query `b` to an existing union pushes `b` onto the member list and links it, but never activates the union. | A union of `a` and `c`, extended with a node `b` that has rows. The union's rows stay those of `a` and `c`. | The union is recomputed as the concatenation of all its members' rows, and the change flows to what it feeds. | not executed | Findings.ExtendUnionMissesRows | Unions.ExtendUnionCorrected |
| trunk/jquery.rdf.js:423-426 | Adding a query `b` to a union `u` links `b` to `u` both ways without checking whether `u` already feeds `b`. `resetQuery` (lines 320-328) and `updateQuery` (lines 308-318) follow `children` and `partOf` with no record of nodes already visited. | `u.add(u.optional('?x q ?z'))`: `b` is `u`'s child (line 473) and `u` is pushed onto `b.partOf` (line 425). A triple `b` matches makes `rightActivate` reset `b`, which resets `u`, which resets `b` again, without end. With `where` in place of `optional` the same loop runs through `updateQuery` and `leftActivate`. | A union never takes a member that it feeds; such an `add` is refused. | not executed | Findings.ExtendByOwnChild | Unions.ExtendUnionChecked |

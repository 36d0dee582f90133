# Header control: a verified model

The module edits the headers of requests and responses by an ordered list of rules. A rule has an operation (`set`,
`clear`, `add`, `append`, `rewrite`, `pass`), a header name that may end in `*`, a value, an optional condition and the
flag `-n`. This project models what the module does with such lists and proves what holds of it. It is written for
maintainers of the C code: the classes have the fields of the C structures, and their methods the branches of the C
functions.

- `NginxList` is nginx's chunked list as an object graph: parts with a backing array, an offset, a length and a
  successor, the first part embedded in the list. Removing an element trims, splits, unlinks or overwrites parts; the
  list it leaves is the old one without that element, every other element keeps its address, and the next push still
  has its room.
- `RequestHeaders` is the request editor, which deletes from that list while it scans it and starts again after each
  deletion, and the request with its builtin fields (`host`, `range`, ...), raw pointers to headers. `RequestEdit`,
  `FieldIndex` and `RequestRoom` say on values what happens to the headers, their addresses and the room for more.
  `RequestState` is a request as a value, with numbered addresses, so that it also describes fields whose header is gone;
  `RequestAgreement` says when a field agrees with the list, one name at a time, and what the handlers mean then.
  `RequestFields` is about what rules on builtin names leave.
- `ResponseHeaders` is the response editor, which marks headers as deleted and never takes one out, with its builtin
  fields and the chain of Cache-Control headers. `ResponseEdit` and `ResponseState` say on values what it does;
  `ContentTypes` is the charset scan, and `TypeRules` what rules on Content-Type make of a response.
- `AbstractEdit` is the edit as clients see it, and `EditPositions` says what it leaves position by position, on the
  characters of the names. `Refinement` shows that both editors perform it through whole runs, and
  `Isolation` that names do not interfere. `BuiltinRuns` does the same for runs with rules on builtin names, and
  `DerivedRuns` is about `server` and the length of a request over whole runs. `ResponseFields` is about the builtin
  fields of a response over whole runs.
- `RuleEngine` says which rules run: a rule that ran locks its name. `LockTables` and `Bitmaps` are the bitmap over rule
  ids that keeps those locks. `Inheritance` and `RuleMerge` are the merge of a block's rules with those of its parent.
  `Directives` reads the directives that configure rules, and `ConfiguredRuns` goes from their words to the headers that
  are left. `RequestRun`, `ResponseRun` and `Handlers` run rules.
- `HostValidator` is the scanner of Host values; it follows sections 3.2.2 and 3.2.3 of RFC 3986, as section 7.2 of
  RFC 9110 uses them, but more loosely, and its own grammar is what is stated.
- `PhaseTable` is the one-time rearrangement of the table of phase handlers, for interleaved requests.
- `HeaderEdit`, `Rules`, `Names`, `Seqs`, `Decimals` and `Machine` hold what these share.

Conditions and values are arbitrary functions of the current headers and the values derived from them, and may fail;
they do not see the builtin fields. Where the bitmap's stride depends on a constant of nginx, every stride from one bit
to the whole word is covered.

The lemmas called `...ByCode` say in terms of character codes what the definitions of names, hosts, numbers and
directives come to; `RuleEngine.HandledRule` and the four lemmas beside it say what each case of a rule does to a run.

Some things one would expect are not so. For each of these there is an exact condition, and an input that fails:

- A prefix clear that covers a builtin request header which is present leaves its field behind, and setting that header
  afterwards puts nothing in the list (`RequestAgreement.HandleKeepsRight`, `RequestFields.PrefixClearLosesSet`). If it
  covers Host, it also leaves `server` behind (`DerivedRuns.GenericServer`, `DerivedRuns.ClearLeavesServer`).
- A rule that writes a builtin request header which is there more than once leaves the others
  (`RequestFields.BuiltinRefines`, `RequestFields.SecondRangeStays`).
- A rule on Host or Content-Length that does not get its way changes the derived value all the same, in requests
  (`RequestFields.HostAgrees`, `RequestFields.LengthAgrees`, `RequestFields.AddHostChangesServer`,
  `RequestFields.AddLengthForgets`) and in responses (`ResponseFields.LengthAgrees`, `ResponseFields.AddLengthForgets`).
- Adding to or rewriting Cookie or X-Forwarded-For in a request can use a variable that was never set
  (`RequestHeaders.SetsVariable`, `RequestFields.AddCookieIsUnset`), and adding an empty value nulls the field of a header
  that stays (`RequestAgreement.MultiAgrees`, `RequestFields.AddEmptyCookieNullsField`).
- Appending an empty value to a response adds a header that is never sent (`ResponseEdit.MarkingRefines`,
  `ResponseEdit.EmptyAppendIsHidden`).
- On a builtin response header that has been cleared, `add` adds nothing and `rewrite` brings it back, although the
  documentation has `add` act on absent headers and `rewrite` on present ones (`ResponseFields.BuiltinRefines`,
  `ResponseFields.ClearedServer`).
- The Content-Type and Cache-Control handlers of responses ignore the operation: `add` overwrites what is there, and
  `rewrite` creates what is not (`ResponseFields.TypeAsDocumented`, `ResponseFields.AddReplacesType`,
  `ResponseFields.ChainRefines`, `ResponseFields.AddOverwritesCacheControl`).
- A builtin response field that holds a header of another name, as the field for `E-Tag` does when the header is called
  ETag, is not right, and a rule on the field's name can rename that header (`ResponseFields.RenamesOther`,
  `ResponseFields.OtherName`); other fields take no harm (`ResponseState.HandleKeepsIndexed`).
- The charset scan misses the first semicolon with `charset=` behind it if an odd number of semicolons stands directly in
  front of that one (`ContentTypes.FindsFirst`, `ContentTypes.SecondSemicolon`).
- The charset of a Content-Type value is a range inside it unless the text after `charset=` is a single double quote
  (`ContentTypes.CharsetInside`, `ContentTypes.LoneQuote`).
- `pass` is documented to have no runtime effect, but it locks its name like every rule
  (`Inheritance.PassHasNoEffect`, `Refinement.PassHidesSet`).

## Model

| member | source | states |
|---|---|---|
| Names.SameNameByCode | src/ngx_http_headers_control_headers_in.c:273-276 | two names are the same if and only if they have one length and at each position the same character or, by code, the two cases of one ASCII letter |
| Names.HasPrefixByCode | src/ngx_http_headers_control_headers_in.c:281-286 | a name starts with a prefix if and only if it is as long and agrees with it so at each position of the prefix |
| Names.LowerByCode | src/ngx_http_headers_control_headers_in.c:372-376 | lower-casing adds 32 to the code of each capital letter, changes nothing else and leaves no capital letter |
| NginxList.RemovalKeepsStorage | src/ngx_http_headers_control_util.c:388-505 | in each of the seven cases, the addresses of the list after a removal are the old ones without the removed one, parts stay in bounds, only a sole part may be empty, and `nalloc` slots behind the last part's start are there and held by nobody else |
| NginxList.NoDupIsDisjoint | src/ngx_http_headers_control_util.c:488-502 | no address is held twice exactly when the parts, two of which share an array after a split, use pairwise disjoint ranges; every valid list satisfies it |
| NginxList.ExtendLast | src/ngx_http_headers_control_headers_in.c:350-354 | pushing into the last part uses an address that no header holds, and keeps the storage condition |
| NginxList.AddWindow | src/ngx_http_headers_control_headers_in.c:350-354 | pushing when the last part is full adds a part with one header, and keeps the storage condition |
| NginxList.RemovalLeavesRoom | src/ngx_http_headers_control_util.c:388-505 | the room for further pushes stays as it is or is given up; only when the list becomes empty does the address of its last element come back, in front of it |
| NginxList.List.Remove | src/ngx_http_headers_control_util.c:388-505 | the list keeps its invariant; exactly the element that `cur` and `i` denote leaves, with its address; the others keep order, content and address; the room is as above |
| NginxList.List.Predecessor | src/ngx_http_headers_control_util.c:416-423 | the walk to the part in front of `cur` always finds it: the "part not found" exits are never taken |
| NginxList.List.Unlink | src/ngx_http_headers_control_util.c:425-428 | an emptied part behind the head leaves the chain; if it was the last one, its predecessor becomes the last one, with no free room |
| NginxList.List.CopyOverHead | src/ngx_http_headers_control_util.c:439-457 | an emptied head takes over its successor's window and successor; if that was the last part, the head becomes it |
| NginxList.List.Reset | src/ngx_http_headers_control_util.c:412-414 | removing the only element leaves the head empty at the start it had |
| NginxList.List.Advance | src/ngx_http_headers_control_util.c:403-405 | the window of the part loses its first element, nothing else changes |
| NginxList.List.TrimRight | src/ngx_http_headers_control_util.c:478-486 | the window loses its last element; in the last part the capacity becomes the length |
| NginxList.List.Split | src/ngx_http_headers_control_util.c:488-504 | the part is followed by a new one on the same array with the elements behind `i`; a split last part makes the new one last, with its length as capacity |
| NginxList.List.Push | src/ngx_http_headers_control_headers_in.c:350-354 | a push adds one new address at the end, the next one of the room or one on a new array, and leaves all elements as they are |
| NginxList.List.Store | src/ngx_http_headers_control_headers_in.c:424-436 | a write changes the element at that address, or none if it is not in the list |
| NginxList.List.Standing | src/ngx_http_headers_control_headers_in.c:260-271 | a walk inside a part stands at the element its list position says; from the end of a part it steps to a first element that exists, so it needs no second test |
| NginxList.List.Head | src/ngx_http_headers_control_headers_in.c:305-308 | a list whose head has no successor ends at the head, which is what the code asserts after each removal |
| HeaderEdit.KeptRemoveAt | src/ngx_http_headers_control_headers_in.c:299-316 | deleting a header that the rule deletes anyway does not change what the rule leaves |
| RequestHeaders.Scan | src/ngx_http_headers_control_headers_in.c:255-335 | the loop with its restarts terminates (fewer elements, then fewer left to look at) and leaves what the edit says; the field passed in ends null, untouched, or at the address of the first match, which is never deleted as a duplicate |
| RequestEdit.DeleteStep | src/ngx_http_headers_control_headers_in.c:299-316 | after a deletion and a restart, the rest of the work still leads to the same list, and the remembered address still is the first match |
| RequestEdit.PlaceStep | src/ngx_http_headers_control_headers_in.c:321-330 | writing the value makes that header the first match, on the first visit and on each visit after a restart |
| RequestEdit.AddStops | src/ngx_http_headers_control_headers_in.c:295-297 | an add rule that meets a header has changed nothing |
| RequestEdit.ScanDone | src/ngx_http_headers_control_headers_in.c:333-341 | a scan that reaches the end has performed the whole edit, with at most one match left |
| RequestHeaders.SetHeader | src/ngx_http_headers_control_headers_in.c:237-388 | headers, addresses and the field passed in are after the helper what the edit says: survivors keep their addresses, a created header is last, and the field holds the match, the new header or null |
| FieldIndex.OwnField | src/ngx_http_headers_control_headers_in.c:311-380 | an edit through the field of its own name leaves it at the first header of the name, or null if there is none |
| FieldIndex.OtherField | src/ngx_http_headers_control_headers_in.c:350-380 | a header that an edit creates is the first one of no other name |
| FieldIndex.FirstOfKept | src/ngx_http_headers_control_headers_in.c:273-316 | an edit about other names leaves the first header of a name at its address |
| RequestRoom.LastToGo | src/ngx_http_headers_control_headers_in.c:299-316 | the header with which a scan empties the list was the last one of it |
| RequestRoom.AppliedTracks | src/ngx_http_headers_control_headers_in.c:237-388 | after any edit the addresses in use are again distinct and inside the list; none of them is in the room for further headers, except the one of the last header when the list has become empty, and that one comes next |
| RequestHeaders.Request.Apply | src/ngx_http_headers_control_headers_in.c:237-388 | the helper does to headers, addresses and the variable that it is given what the edit of a request value says, for every rule and every request |
| RequestHeaders.Request.WriteAt | src/ngx_http_headers_control_headers_in.c:424-436 | writing through a field changes the header at that address and no other, and no header if none is there any more |
| RequestState.HandleSound | src/ngx_http_headers_control_headers_in.c:391-724 | no handler puts two headers at one address or gives out an address in use |
| RequestAgreement.GenericAgreement | src/ngx_http_headers_control_headers_in.c:230-234 | a rule without a field keeps all builtin fields in agreement exactly when it is no prefix clear that covers the name of a non-null field |
| RequestAgreement.OwnAgreement | src/ngx_http_headers_control_headers_in.c:391-437 | an edit through its own field keeps all builtin fields in agreement with the list |
| RequestAgreement.ClearedEdit | src/ngx_http_headers_control_headers_in.c:426-430 | blanking the field's header before deleting all headers of the name makes no difference to the result |
| RequestAgreement.BuiltinAgrees | src/ngx_http_headers_control_headers_in.c:391-437 | while the fields agree, the handler writes the first header of the name in place or does the edit, and they agree afterwards |
| RequestAgreement.MultiAgrees | src/ngx_http_headers_control_headers_in.c:615-667 | while the fields agree and the variable gets set, a rule on Cookie or X-Forwarded-For does the edit, and they agree afterwards exactly unless an empty value is added while a header is there |
| RequestAgreement.HandleAgrees | src/ngx_http_headers_control_headers_in.c:189-226 | while all fields agree, every handler does to the headers what the rule means, and all agree afterwards if and only if the rule deletes no present builtin header by prefix and nulls no field whose header stays |
| RequestAgreement.HandleKeepsRight | src/ngx_http_headers_control_headers_in.c:189-226 | the same one name at a time: a field that agrees still does afterwards exactly if the rule is harmless to it, whatever state the other fields are in |
| RequestHeaders.Request.SetBuiltin | src/ngx_http_headers_control_headers_in.c:391-437 | for every request, fields left behind included, request and fields are afterwards what the handler says on values |
| RequestHeaders.SetsVariable | src/ngx_http_headers_control_headers_in.c:644-664 | with a value, the variable stays unset exactly if an add meets a header or a rewrite meets none |
| RequestHeaders.Request.SetMulti | src/ngx_http_headers_control_headers_in.c:615-667 | for every operation and whenever the variable gets set, request and fields are afterwards what the handler says on values; nothing happens on a bad request |
| RequestHeaders.Request.SetHost | src/ngx_http_headers_control_headers_in.c:440-462 | fails on an invalid value and changes nothing; otherwise `server` is the normal form, or empty for an empty value, and the headers are those that the builtin handler leaves |
| RequestHeaders.Request.SetContentLength | src/ngx_http_headers_control_headers_in.c:465-496 | fails on a value that is no size and changes nothing; otherwise the length is that number, or -1 for an empty value, and the headers are those that the builtin handler leaves |
| RequestHeaders.Request.Dispatch | src/ngx_http_headers_control_headers_in.c:189-226 | every handler whose behaviour is defined does to the request what it says on values, for every request and every rule that the parser accepts |
| RequestFields.BuiltinRefines | src/ngx_http_headers_control_headers_in.c:411-436 | a rule on a single-valued builtin name performs the abstract edit if and only if it does not write a value into the first of several headers: then the others stay |
| RequestFields.FirstValueAfter | src/ngx_http_headers_control_headers_in.c:411-436 | what a builtin rule leaves as the first value of its name: an add keeps a value that is there, a rewrite creates none, an empty value deletes |
| RequestFields.ThroughField | src/ngx_http_headers_control_headers_in.c:414-436 | a rule with a value on a field that is not null writes value and hash of the header at that address and nothing else; an add does nothing |
| RequestFields.ThroughNull | src/ngx_http_headers_control_headers_in.c:410-412 | through a null field the list is edited, and the field gets the address of the first header of the name if that gets the value, or of the created one, and is null otherwise |
| RequestFields.HostAgrees | src/ngx_http_headers_control_headers_in.c:440-462 | a Host rule fails exactly on a non-empty invalid value, and then changes nothing; otherwise `server` is the normal form of the first Host header, or empty without one, if and only if an add meets no Host with another normal form and no Host at all when its value is empty, and a rewrite with a value meets a Host |
| RequestFields.LengthAgrees | src/ngx_http_headers_control_headers_in.c:465-496 | the same of Content-Length, its number, and -1 |
| RequestFields.AddHostChangesServer | src/ngx_http_headers_control_headers_in.c:440-462 | adding Host `b`, or an empty one, to a request with Host `a` keeps the header and sets `server` to `b`, or empties it |
| RequestFields.AddLengthForgets | src/ngx_http_headers_control_headers_in.c:465-496 | adding an empty Content-Length to a request with one keeps the header and sets the length to -1 |
| RequestFields.PrefixClearLoses | src/ngx_http_headers_control_headers_in.c:281-316 | clearing by any prefix of a builtin name that is there leaves its field behind; then setting the header changes nothing, and there is none |
| RequestFields.PrefixClearLosesSet | src/ngx_http_headers_control_headers_in.c:281-316 | so with `ra*` and Range |
| RequestFields.AddCookieIsUnset | src/ngx_http_headers_control_headers_in.c:644-664 | adding Cookie to a request with one, or rewriting it in a request without, leaves the variable unset |
| RequestFields.AddEmptyCookieNullsField | src/ngx_http_headers_control_headers_in.c:632-652 | adding an empty Cookie to a request with one nulls the field, and the header stays |
| RequestFields.SecondRangeStays | src/ngx_http_headers_control_headers_in.c:424-436 | setting Range where it is there twice writes the first and leaves the second |
| AbstractEdit.DeletionRefines | src/ngx_http_headers_control_headers_in.c:237-388 | physical deletion performs the abstract edit, for every rule, value and list |
| EditPositions.RequestClear | src/ngx_http_headers_control_headers_in.c:281-316 | clearing `p*` leaves exactly the headers whose name is shorter than `p` or differs from it, up to ASCII case, at some position of `p`, in order and with their values |
| EditPositions.ResponseClear | src/ngx_http_headers_control_headers_out.c:226-260 | the same of the headers that are sent |
| EditPositions.RequestValue | src/ngx_http_headers_control_headers_in.c:281-341 | on a request a wildcard rule with a value looks at no header: it adds one called by its own key, or does nothing if it rewrites |
| EditPositions.ResponseValue | src/ngx_http_headers_control_headers_out.c:226-270 | on a response it gives the value to the first header whose name starts with `p` and takes out the others; without one it adds a header called by its own key, unless it rewrites |
| EditPositions.ExactEdit | src/ngx_http_headers_control_headers_in.c:255-380 | what an exact rule leaves, position by position, for every operation and value: which headers go, which one gets the value, what is added, and that everything else stays where it is |
| EditPositions.RequestEntries | src/ngx_http_headers_control_headers_in.c:299-376 | hash, key and lower-case key of a header that stays are as before; a created one has the hash 0 if its value is empty, and its lower-case key in lower case |
| EditPositions.ResponseEntries | src/ngx_http_headers_control_headers_out.c:199-306 | each header of a response is the same afterwards, or was sent and is deleted, or was sent and has the value and hash of the rule; a created one is as above |
| ResponseEdit.MarkingRefines | src/ngx_http_headers_control_headers_out.c:168-308 | so does marking, on the headers that are sent, if and only if the rule does not append an empty value |
| ResponseEdit.EmptyAppendIsHidden | src/ngx_http_headers_control_headers_out.c:278-288 | an append of an empty value to no headers sends none |
| ResponseHeaders.Scan | src/ngx_http_headers_control_headers_out.c:190-260 | the loop leaves the first match with the value and marks the others; the field passed in ends at the last match |
| ResponseHeaders.SetHeader | src/ngx_http_headers_control_headers_out.c:168-308 | the headers are the edited ones, no header has moved, and the field passed in stands for the last match or the new header |
| ResponseHeaders.Response.SetContentType | src/ngx_http_headers_control_headers_out.c:464-521 | whatever the operation, the type is the value and its length the one without parameters; the charset is that of the value, or stays if it has none; the list is edited with an empty value that creates nothing, so an add leaves it alone and every other operation deletes Content-Type headers from it |
| TypeRules.TypeWithCharset | src/ngx_http_headers_control_headers_out.c:464-516 | for every value with a charset the type ends at the semicolon in front of it, the first with spaces and `charset=` behind it among those with an even number of semicolons directly in front; the charset is the text behind `charset=` without its quotes, or wraps around for a lone quote |
| TypeRules.TypeWithoutCharset | src/ngx_http_headers_control_headers_out.c:471-516 | for every other value the type is the whole value and the charset of the response stays |
| TypeRules.FirstParameter | src/ngx_http_headers_control_headers_out.c:475-513 | in the usual form `<type>; charset=<text>` without quotes the type ends at the first semicolon and the charset is that text |
| TypeRules.TypeHeaders | src/ngx_http_headers_control_headers_out.c:518-520 | an add leaves the list as it is; every other operation takes out the Content-Type headers that are sent and no others, whatever the value, and creates none |
| ResponseHeaders.Response.SetBuiltin | src/ngx_http_headers_control_headers_out.c:311-354 | the builtin field and its header are afterwards what the handler says on values |
| ResponseHeaders.Response.SetContentLength | src/ngx_http_headers_control_headers_out.c:524-577 | fails on a value that is no size and changes nothing; otherwise the length is that number, or -1 for an empty value, and field and header are what the builtin handler leaves |
| ResponseHeaders.MarkRest | src/ngx_http_headers_control_headers_out.c:367-370 | the loop over the chain deletes exactly the headers behind the first one |
| ResponseHeaders.Response.SetChain | src/ngx_http_headers_control_headers_out.c:357-403 | headers and chain are afterwards what the Cache-Control handler says on values |
| ResponseState.HandleKeepsIndexed | src/ngx_http_headers_control_headers_out.c:168-543 | for any set of names: every rule that the parser accepts, prefix clears included, keeps their fields right (null only while no header of the name is live, otherwise at a header of the name outside which none is live; a chain holds all live ones), and keeps other fields from holding headers of these names |
| ResponseState.ChainKeeps | src/ngx_http_headers_control_headers_out.c:366-383 | after a rule on an existing chain, its first header is the only one of the name that can be live |
| ResponseState.CreatedPoints | src/ngx_http_headers_control_headers_out.c:325-331 | through a null field exactly one header is created, and the field stands for it |
| ResponseFields.RunKeepsIndexed | src/ngx_http_headers_control_module.c:129-171 | that holds through every run of such rules, with any conditions and values, failing runs included |
| ResponseFields.ThroughField | src/ngx_http_headers_control_headers_out.c:332-352 | a field that is not null: an add does nothing, an empty value deletes the header, another one goes into it with the key and hash of the rule, dead or alive |
| ResponseFields.ThroughNull | src/ngx_http_headers_control_headers_out.c:324-330 | a null field: a rewrite does nothing; otherwise the list is edited and the field gets the created header, or the last header of the name that was sent, or stays null for an add |
| ResponseFields.OneVisible | src/ngx_http_headers_control_headers_out.c:311-354 | then at most one header of a builtin name is sent, the one its field stands for |
| ResponseFields.BuiltinRefines | src/ngx_http_headers_control_headers_out.c:325-353 | under a builtin name whose field is right the client gets the values that the abstract edit says if and only if the rule is not an add or a rewrite that meets a cleared header |
| ResponseFields.ClearedServer | src/ngx_http_headers_control_headers_out.c:333-353 | after Server was cleared, rewriting it sends it again, and adding it does not |
| ResponseFields.ChainRefines | src/ngx_http_headers_control_headers_out.c:357-403 | whatever the operation, exactly the value is sent as Cache-Control, or nothing if it is empty; that is what the abstract edit says if and only if an add meets no value or just its own, and a rewrite with a value meets one |
| ResponseFields.ChainEntries | src/ngx_http_headers_control_headers_out.c:357-461 | header by header: the first of the chain gets the value, with the hash of the rule or 0, the others of the chain are deleted, the rest stays; or one header is added and is the chain |
| ResponseFields.AddOverwritesCacheControl | src/ngx_http_headers_control_headers_out.c:366-383 | adding `no-store` to `public` leaves `no-store` only |
| ResponseFields.TypeAsDocumented | src/ngx_http_headers_control_headers_out.c:464-473 | the type becomes the value whatever the operation, which is as documented if and only if an add meets no other type and a rewrite with a value meets one |
| ResponseFields.AddReplacesType | src/ngx_http_headers_control_headers_out.c:464-473 | adding `text/css` over `text/html` replaces it, and rewriting sets it where there is none |
| ResponseFields.LengthAgrees | src/ngx_http_headers_control_headers_out.c:524-577 | a rule on Content-Length fails exactly on a non-empty value that is no size; otherwise the length agrees with the live header, or is -1 without one, if and only if an add meets no header, or a live one of the same length, or a dead one with an empty value, and a rewrite with a value meets a header |
| ResponseFields.AddLengthForgets | src/ngx_http_headers_control_headers_out.c:524-577 | adding an empty Content-Length to a response with one keeps the header and sets the length to -1 |
| ResponseFields.OtherName | src/ngx_http_headers_control_headers_out.c:88-90 | a field that holds a header of another name is not right, the fields of other names are, and a rule on the field's name gives the header that name |
| ResponseFields.RenamesOther | src/ngx_http_headers_control_headers_out.c:333-353 | a rule on a builtin name changes the name of a header if and only if it is no add, has a value, and its field holds a header of another name |
| RuleEngine.HandledRule | src/ngx_http_headers_control_module.c:129-171 | a rule whose name is not locked and whose condition, evaluated to `w`, is met (`if=`: `w` is neither empty nor `0`; `if!=`: it is) is handled with its value; if the handler fails, the run ends there, not ok, with what the handler left; otherwise it goes on from that with the name locked |
| RuleEngine.BrokenStops | src/ngx_http_headers_control_headers_in.c:189-218 | a condition that cannot be evaluated, or the value of a rule that gets that far, ends the run with the state unchanged |
| RuleEngine.UnmetIsSkipped | src/ngx_http_headers_control_headers_in.c:194-205 | a rule whose condition is not met leaves state and locks as they are, and the run goes on |
| RuleEngine.PassedRule | src/ngx_http_headers_control_headers_in.c:210-212 | a pass rule that runs only locks its name |
| RuleEngine.LockedIsSkipped | src/ngx_http_headers_control_module.c:129-152 | an exact rule whose name is locked leaves everything as it is, and the run goes on |
| RuleEngine.LockedExactly | src/ngx_http_headers_control_module.c:129-171 | a rule is skipped exactly when it is exact and an earlier exact rule of the same name without -n was executed; wildcard rules are never skipped and never lock |
| RuleEngine.OneLockPerName | src/ngx_http_headers_control_module.c:129-171 | after an exact rule without -n was executed, no exact rule of its name runs |
| RuleEngine.RunConcat | src/ngx_http_headers_control_module.c:129-171 | running one list and then another with the locks and the state it left is running both in one |
| LockTables.LockTable.IsLockedAt | src/ngx_http_headers_control_module.c:134-154 | the backward search over ids finds a locked rule of the name exactly when the name is locked |
| LockTables.LockTable.RanAt | src/ngx_http_headers_control_module.c:166-170 | the unguarded write of a rule's bit locks exactly its name, if it is exact and lacks -n |
| Bitmaps.Bitmap.IsSet | src/ngx_http_headers_control_util.c:369-385 | the test of one bit is membership in the set |
| Bitmaps.Bitmap.Set | src/ngx_http_headers_control_util.c:358-366 | adds exactly that id if it is below the size, and nothing otherwise |
| Bitmaps.Bitmap.Lock | src/ngx_http_headers_control_module.c:166-170 | the unguarded write stays in the array and adds exactly that id, for every stride |
| Bitmaps.OrBit | src/ngx_http_headers_control_util.c:363-364 | a bit of an or is set exactly when it is set on either side |
| Bitmaps.AndShift | src/ngx_http_headers_control_util.c:377-379 | masking with one shifted bit is not zero exactly when that bit is set |
| RequestRun.ExecRule | src/ngx_http_headers_control_headers_in.c:177-226 | one rule has the state and the outcome that it means: not met, done or failed |
| RequestRun.RunRules | src/ngx_http_headers_control_module.c:429-477 | the loop over ids leaves the request, and reports, what running the rules with locked names means, for every request and all rules that the parser accepts, as long as no executed rule uses the unset variable |
| RequestRun.InvalidValueStops | src/ngx_http_headers_control_headers_in.c:440-488 | a value outside the grammar for Host, or one that is no size for Content-Length, ends the run of every list it stands in front of: the request is unchanged and no later rule runs |
| RequestRun.SettingIsDefined | src/ngx_http_headers_control_headers_in.c:615-667 | no rule does so if those on Cookie and X-Forwarded-For only set, clear or pass |
| RequestRun.RunKeepsRight | src/ngx_http_headers_control_module.c:434-475 | the field of a name that agrees with the list still does after every run in which no rule can delete it by prefix or add to it as a multi-valued name |
| RequestRun.LeftBehind | src/ngx_http_headers_control_headers_in.c:424-436 | a rule with a value on a name whose field was left behind changes nothing |
| DerivedRuns.RunKeepsDerived | src/ngx_http_headers_control_headers_in.c:440-496 | `server` and the length agree with their headers after every run, failing ones included, in which the executed rules on Host and Content-Length get their way and no rule can leave a builtin field behind |
| DerivedRuns.GenericServer | src/ngx_http_headers_control_headers_in.c:230-234 | a rule without a field keeps `server` in agreement if and only if it does not delete a Host that is there by prefix |
| DerivedRuns.ClearLeavesServer | src/ngx_http_headers_control_headers_in.c:281-316 | clearing `ho*` from a request with Host `a` deletes the header, and `server` stays `a` |
| ResponseRun.ExecRule | src/ngx_http_headers_control_headers_out.c:108-157 | one rule has the state and the outcome that it means |
| ResponseRun.RunRules | src/ngx_http_headers_control_module.c:124-173 | the loop over ids leaves the response, and reports, what running the rules with locked names means |
| ResponseRun.InvalidValueStops | src/ngx_http_headers_control_headers_out.c:524-544 | so does a Content-Length value that is no size on a response |
| Handlers.HandleRequest | src/ngx_http_headers_control_module.c:419-478 | on a level that inherits through any number of levels the request ends as if all their rules had been run in order, the innermost first; HTTP below 1.0 and levels without rules change nothing |
| Handlers.FilterResponse | src/ngx_http_headers_control_module.c:106-174 | the same of the response |
| Inheritance.InheritsExactly | src/ngx_http_headers_control_module.c:225-280 | a block has its own rules and then, in order, exactly those of its parent that are wildcards or whose name is that of no unconditional exact rule without -n of the block |
| Inheritance.InheritKeepsMeaning | src/ngx_http_headers_control_module.c:208-288 | for all rules, conditions, values and handlers that may depend on the state and fail, the pruned list ends with the same state, result and locks as the child's rules followed by all of the parent's |
| Inheritance.MergedKeepsMeaning | src/ngx_http_headers_control_module.c:208-319 | so for any number of levels and whatever names are locked |
| Inheritance.DisabledAreLocked | src/ngx_http_headers_control_module.c:230-260 | a run that gets through a list has locked every name that the list switches off |
| Inheritance.PrunedRun | src/ngx_http_headers_control_module.c:129-171 | rules of names that are locked may be left out |
| Inheritance.InheritAssociative | src/ngx_http_headers_control_module.c:208-319 | merging location with (server with http) gives the rules of merging (location with server) with http |
| Inheritance.PassTakesOthersOut | src/ngx_http_headers_control_headers_in.c:210-212 | a pass rule that runs takes the later exact rules of its name out of the run, and has no other effect; as a wildcard, with -n, unmet or locked it has none |
| Inheritance.PassHasNoEffect | src/ngx_http_headers_control_headers_in.c:210-212 | an unconditional exact pass rule without -n has no effect on any run if and only if no exact rule of its name other than pass would be reached behind it, which stops at the next pass rule of the name without -n |
| Refinement.PassHidesSet | src/ngx_http_headers_control_headers_in.c:210-212 | `pass X-Foo` in front of `set X-Foo a` leaves no header, and without it there is one |
| RuleMerge.DisableFor | src/ngx_http_headers_control_module.c:233-260 | marks in the disable map exactly the parent's exact rules that this child rule switches off |
| RuleMerge.AppendKept | src/ngx_http_headers_control_module.c:262-280 | the count is right and exactly the unmarked parent rules are appended, in order |
| RuleMerge.MergeOneArray | src/ngx_http_headers_control_module.c:208-288 | the child's array ends with the inherited list, ids are positions, the counter is the length, and the parent's array is not written |
| RuleMerge.MergeSide | src/ngx_http_headers_control_module.c:297-305 | a level without rules shares its parent's array and counter; otherwise the lists are merged |
| RuleMerge.MergeLocConf | src/ngx_http_headers_control_module.c:291-319 | both sides of a level inherit, ids are positions, counters are lengths, and the parent level keeps its rules |
| RuleMerge.LevelsAssociate | src/ngx_http_headers_control_module.c:283-287 | three levels end with the same rules and the same ids in whichever order they are merged, empty levels included |
| RuleMerge.MergedRunsAlike | src/ngx_http_headers_control_module.c:208-288 | running the merged array ends like running both arrays one after the other |
| Directives.ParseOpcode | src/ngx_http_headers_control_util.c:143-179 | the six operations are recognised exactly by `set`, `clear`, `add`, `append`, `rewrite` and `pass`, in any case, and by no other word |
| Directives.SpelledByWords | src/ngx_http_headers_control_util.c:143-287 | the words of a directive, one by one: `set`, `clear`, `add`, `append`, `rewrite` and `pass` in any case name the operations; `-n` sets the flag; clear and pass have no value word and the others one; a last word `if=` or `if!=` with an expression is the condition or its negation; nothing else is accepted |
| Directives.WellFormedByCode | src/ngx_http_headers_control_util.c:23-66 | by character codes: no white space in the name, wildcard exactly with a final star, the handler of the first table entry equal up to case, no append on a table name, and what has to compile |
| Directives.ParseCondition | src/ngx_http_headers_control_util.c:233-255 | a word is a condition exactly when it is `if=` or `if!=` followed by a non-empty expression |
| Directives.ParseHeader | src/ngx_http_headers_control_util.c:15-106 | succeeds exactly on a non-empty name without white space and a value that compiles; the handler is that of the first table entry equal up to case |
| Directives.ParseRule | src/ngx_http_headers_control_util.c:200-317 | gives the rule that the words configure by the grammar, and fails only if they configure none |
| Directives.ParseDirective | src/ngx_http_headers_control_util.c:109-335 | succeeds exactly on directives of the grammar; then one rule is added at the end with the counter as its id, ids stay positions, and the other side is untouched |
| Directives.Unambiguous | src/ngx_http_headers_control_util.c:200-287 | a directive configures at most one rule |
| Directives.EveryRuleHasWords | src/ngx_http_headers_control_util.c:200-287 | writing a well-formed rule down and reading it gives the rule back, except for a header called `-n` without the flag |
| Directives.ConfiguredIsAdmissible | src/ngx_http_headers_control_util.c:295-317 | every configured rule is fit to run on requests; builtin names are never wildcards and never appended to |
| Directives.ConfiguredSuits | src/ngx_http_headers_control_util.c:295-317 | every configured rule is fit to run on responses, for every table in which only Cache-Control is multi-valued and no name is repeated |
| ConfiguredRuns.RequestDirective | src/ngx_http_headers_control_util.c:143-317 | from words to headers: running the rule that `<operation> <name> <value>` configures leaves of the headers of that name what the word says (`set`: exactly one, with the value), and those of every other name as they were |
| ConfiguredRuns.ResponseDirective | src/ngx_http_headers_control_util.c:143-317 | the same of the headers that a response sends |
| Refinement.RunProjects | src/ngx_http_headers_control_module.c:129-171 | if evaluating and handling commute with a view of the state, whole runs do, with the same rules skipped and failing |
| Refinement.RequestRunRefines | src/ngx_http_headers_control_module.c:434-475 | a run of rules on generic names on a request list is a run of the abstract edit on its names and values |
| Refinement.ResponseRunRefines | src/ngx_http_headers_control_module.c:129-171 | a run of rules on generic names on a response list is a run of the abstract edit on the names and values that are sent |
| BuiltinRuns.RequestRunWithBuiltins | src/ngx_http_headers_control_module.c:434-475 | from a request whose fields agree and that has at most one header of each builtin name, a run of any rules that spare the fields, builtin and multi-valued ones included, is a run of the abstract edit, with the same rules skipped and failing, and leaves such a request |
| BuiltinRuns.ResponseRunWithBuiltins | src/ngx_http_headers_control_module.c:129-171 | a run of any rules, builtin ones and Cache-Control included, sends under a name whose field is right the values that the abstract edit leaves, if the executed rules on the name get their way; the same rules are skipped and fail |
| Refinement.SidesAgree | src/ngx_http_headers_control_module.c:129-171 | the same rules on the same headers give the same headers on both sides, and stop at the same rule if at any |
| Isolation.EditResult | src/ngx_http_headers_control_headers_in.c:237-388 | what each operation makes of the headers of its name: none, exactly one with the value, or one more |
| Isolation.EditOfName | src/ngx_http_headers_control_headers_out.c:199-260 | a rule on other names leaves the headers of a name alone, and a rule on the name does not look at others |
| Isolation.NamesDoNotInterfere | src/ngx_http_headers_control_module.c:129-171 | after a run that does not fail, the headers of a name are those that the rules on it, run alone, make of them |
| Isolation.ResponseNames | src/ngx_http_headers_control_module.c:129-171 | what is sent under a name depends only on what was there under it and on the rules on it |
| Isolation.RequestNames | src/ngx_http_headers_control_module.c:434-475 | the same of request headers |
| HostValidator.ValidateHost | src/ngx_http_headers_control_headers_in.c:727-924 | the scan returns the normal form of the value, or fails, exactly as the grammar says; the result has no capital letter, and each of its characters is that of the value or, for a capital letter, the one 32 codes further on |
| HostValidator.NormalByCode | src/ngx_http_headers_control_headers_in.c:900-923 | the normal form is the front of the value with 32 added to the code of each capital letter, without a dot at its end; behind it stands nothing, a dot, a port or both |
| HostValidator.PiecesByCode | src/ngx_http_headers_control_headers_in.c:765-896 | by character codes: which strings are hosts, as a name or in brackets, and which are ports |
| HostValidator.AcceptsIsAccepted | src/ngx_http_headers_control_headers_in.c:747-910 | the values accepted are those that split somewhere into a valid host and an optional port |
| HostValidator.SplitIsHostEnd | src/ngx_http_headers_control_headers_in.c:782-786 | they split in one place only |
| HostValidator.DotTest | src/ngx_http_headers_control_headers_in.c:789-795 | the comparison with an unsigned `i - 1` is true exactly behind a dot and never by wrapping around |
| HostValidator.PortDigit | src/ngx_http_headers_control_headers_in.c:885-896 | a digit is refused exactly when it takes the port beyond 65535 |
| HostValidator.PortStep | src/ngx_http_headers_control_headers_in.c:885-896 | the accumulator is the unbounded decimal value of the digits so far, and at most 65535 |
| HostValidator.PortRejects | src/ngx_http_headers_control_headers_in.c:885-896 | once a digit is refused, no continuation is a port, leading zeros or not |
| HostValidator.NormalizeIdempotent | src/ngx_http_headers_control_headers_in.c:900-923 | a normal form is not empty, is accepted, and is its own normal form |
| ContentTypes.ScanCharset | src/ngx_http_headers_control_headers_out.c:464-516 | the walk terminates inside the value; type length and charset are those of the first semicolon with `charset=` behind it among those that it looks at, which are not all of them |
| ContentTypes.FindsFirst | src/ngx_http_headers_control_headers_out.c:475-497 | the scan finds the first semicolon with `charset=` behind it if and only if an even number of semicolons stands directly in front of that one, spaces aside |
| ContentTypes.SecondSemicolon | src/ngx_http_headers_control_headers_out.c:484-497 | in `;;charset=a` it finds no charset, and the type length is the full length |
| ContentTypes.TypeLength | src/ngx_http_headers_control_headers_out.c:475-497 | the type length is the full length or the position of a semicolon followed by spaces and `charset=` |
| ContentTypes.CharsetInside | src/ngx_http_headers_control_headers_out.c:499-512 | the charset is a range inside the value if and only if the text after `charset=` is not a single double quote |
| ContentTypes.CharsetText | src/ngx_http_headers_control_headers_out.c:499-512 | then it is that text without the one quote at each end that has one |
| ContentTypes.Unquoted | src/ngx_http_headers_control_headers_out.c:499-508 | putting the quotes that were there back around the charset gives the text after `charset=` |
| ContentTypes.LoneQuote | src/ngx_http_headers_control_headers_out.c:499-512 | the value `;charset="` gives a charset length of 2^64 - 1 |
| PhaseTable.Engine.Handler | src/ngx_http_headers_control_module.c:386-417 | the first call moves the module's slot behind the other slots of its phase and steps back, unless it is last already; every other call runs the rules |
| PhaseTable.StepKeepsSound | src/ngx_http_headers_control_module.c:386-417 | whatever request moves next, every pass has run the handlers that the final order says so far |
| PhaseTable.EveryPassInOrder | src/ngx_http_headers_control_module.c:386-417 | for every interleaving of requests, a completed pass has run each handler of the phase once, the others in their order and the module's last; a pass that was ended has run the first of them |
| PhaseTable.OutsideUntouched | src/ngx_http_headers_control_module.c:406-410 | slots outside the phase keep their contents, and no slot is lost or duplicated |

## Left out

- The build with named expressions (NGX_EXPR), the variants for nginx before 1.23, debug macros and the `#if` around table entries: they repeat the same logic.
- Pool allocation always succeeds, and logging is dropped: the error exits for failed allocations are not modelled.
- Compiling and evaluating complex values is an arbitrary function of the headers and the derived values; the NUL byte that is stored behind a value and taken off again is not modelled, and names contain no NUL byte, at which the C comparison would stop.
- `ngx_list_push`, `ngx_atosz`, `ngx_strlow`, array growth and the step of the phase engine on a declined call are modelled from nginx; their source is not part of this model.
- Values are shorter than 2^64 - 1 bytes, which is the length at which the unsigned comparisons of the scanners would mean something else.
- A list starts out with nginx's own invariant: it is constructed empty here, and every operation keeps `Valid`.
- The exit for a list without a last part, and passing headers on to parent requests (src/ngx_http_headers_control_headers_in.c:345-348 and 378-385).
- The `next` links between headers of one name: a multi-valued request field is modelled as its first header, and the chain of Cache-Control headers as the sequence of its headers; the lower-case name that its new header lacks is taken to be empty.
- RequestHeaders.Request.SetMulti: requires that the variable gets set, because using it otherwise is undefined in C; the exact condition is RequestHeaders.SetsVariable.
- RequestRun.RunRules: requires the same of every rule that the run executes, and so do RequestRun.ExecRule, RequestHeaders.Request.Dispatch and Handlers.HandleRequest.
- Refinement.SidesAgree: is about generic names, rules with a non-zero hash, wildcards that clear or pass, and appended values that are not empty; the exact condition for the last is in ResponseEdit.MarkingRefines. On builtin names the two sides differ as described above.
- BuiltinRuns.ResponseRunWithBuiltins: the conditions and values are fixed for the run, because the order and spelling of headers can differ from the abstract run; it is not about the name Content-Type, whose value is kept outside the list.
- Isolation.NamesDoNotInterfere: the conditions and values are fixed for the run and the run does not fail, because both a condition and a failure can connect names.
- ResponseFields.BuiltinRefines: compares values under one name; where in the list a revived header stands, and how its name is spelled, can differ from the abstract edit.
- Directives.ParseDirective: when a directive is refused, nothing is stated about the rule array, to which a blank rule may have been added; nginx gives up the configuration then.
- Sniffing User-Agent and Connection values, Accept-Ranges, and rekeying Location (src/ngx_http_headers_control_headers_out.c:180-193): their other effects are those of the builtin handler.
- The hash and lower-case form kept beside a Content-Type value.
- Early exits of the filter chain: the next header filter is not part of this model, nor is registering the handlers.
- PhaseTable.EveryPassInOrder: no other handler rearranges the table, and the module's handler stands in the phase once.

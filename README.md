# localmail's in-memory IMAP mailbox, in Dafny

localmail is a test mail server: an SMTP listener delivers mail into an IMAP
mailbox held in memory. This project models that mailbox engine, the module
`localmail/inbox.py`, and proves properties of the model. The model covers:

- the process-wide UID allocator (`UID_GENERATOR`, `LAST_UID`, `get_counter`), as
  the class `Inbox.UidCounter`;
- `Message`, as a class. Its UID, date and parsed document are fixed at delivery and
  its flag set is a field that `store` updates in place;
- `MemoryIMAPMailbox`, as the class `Inbox.Mailbox`. It holds the message list in
  arrival order, the listener list and the UID validity. It also has every
  mailbox operation:
  - delivery;
  - the two addressing schemes of `_get_msgs`: UIDs, and sequence numbers with
    Python list indexing;
  - `fetch`, the counts and constant queries, `getUID` and `getUIDNext`;
  - the listener registry;
  - `store` with its three modes;
  - `expunge`, which removes by identity while it scans a copy;
  - `destroy`;
- `MessagePart`, as the read-only views of a `MessageParts.Part` value:
  - headers with and without `negate`;
  - the body file, with the `surrogateescape` round trip of PEP 383;
  - sub-parts, `isMultipart` and `parse_charset`;
  - `payloads`, which decodes every leaf with the charset of the top-level part;
- the Twisted `MessageSet` handed in by the protocol layer, as a list of ranges whose
  ends are numbers or `*` (RFC 3501 section 9, `sequence-set`).

A Python exception becomes an `Err` value of `Results.Result`. A call that raises
changes nothing in the model.

Some behaviours of the code a reader might not expect, all modelled as written:

- By sequence number, a number above the message count raises IndexError rather than
  being dropped. The number 0 addresses the last message, because `msgs[-1]` is
  Python's last element. See `Inbox.Mailbox.GetMsgs` and
  `InboxLaws.SequenceNumberTooLarge`.
- `getUnseenCount` counts the messages that carry `\Unseen`, not those lacking
  `\Seen`.
- Adding flags and then removing the same flags restores the previous flags only
  when none of the flags was already set. In general the result is the old set minus
  the flags. See `InboxLaws.AddThenRemove`.
- By UID, `*` stands for the last allocated UID even when that message has been
  expunged. It then addresses nothing. See `InboxLaws.UidStar`.
- By UID, the addressed messages are keyed by their 0-based position in the list
  (`enumerate`), not by their sequence number. By sequence number they are keyed by
  the number itself. See `Inbox.Mailbox.GetMsgs` and `InboxLaws.UidAddressesItsMessage`.
- `payloads` decodes every leaf with the charset of the top-level part; a leaf's own
  Content-type plays no part. See `MessageParts.Payloads` and
  `MessageParts.PayloadsIgnoreChildHeaders`.

Files:

| file | contents |
|---|---|
| `results.dfy` | Option, the exceptions, Result |
| `lists.dfy` | Python list operations: `set()`, indexing, `remove`, ordered items |
| `strings.dfy` | ASCII case mapping, `str.split`, substring test |
| `message_sets.dfy` | message sets and what they resolve to |
| `message_parts.dfy` | the parsed document and the `MessagePart` views |
| `inbox.dfy` | the UID allocator, `Message`, `MemoryIMAPMailbox` |
| `inbox_laws.dfy` | lemmas and sessions relating several operations |

## Model

| member | source | states |
|---|---|---|
| Lists.SetOf | localmail/inbox.py:247 | `set(flags)` holds exactly the elements of the list |
| Lists.Index | localmail/inbox.py:117 | Python indexing: in range from the front, negative indices count from the end, anything else is IndexError |
| Lists.Remove | localmail/inbox.py:131 | `list.remove` drops the first occurrence and keeps the other elements in order (length one less, multiset minus that element), and raises ValueError exactly when the element is absent |
| Lists.RemoveFirst | localmail/inbox.py:159 | what `list.remove` leaves: one element fewer, the multiset minus that element, elements before the first occurrence in place and those after it moved up one; an absent element changes nothing |
| Lists.RemoveFirstAfter | localmail/inbox.py:159 | removing by identity an element not in the prefix before it takes out exactly that element |
| Lists.Items | localmail/inbox.py:124 | the item list holds exactly the entries of the dictionary, each once, in ascending key order |
| Strings.Lower | localmail/inbox.py:183 | lower-casing keeps the length and maps every character through the ASCII case map |
| Strings.Upper | localmail/inbox.py:182 | upper-casing keeps the length and maps every character through the ASCII case map |
| Strings.Contains | localmail/inbox.py:220 | `p in s` holds exactly when `p` occurs in `s` at some position |
| Strings.Split | localmail/inbox.py:219-221 | `split` gives at least one piece, no piece holds the separator, joining the pieces gives the string back, and there is one piece exactly when the separator is absent |
| MessageSets.Resolve | localmail/inbox.py:86-87 | a number is in the resolved set exactly when some range covers it, with `*` as the announced last value and either end of a range the larger |
| MessageSets.StarIsLast | localmail/inbox.py:91 | `*` alone resolves to exactly the last value |
| MessageSets.SingleNumber | localmail/inbox.py:92 | a single number resolves to itself alone |
| MessageSets.OneToStar | localmail/inbox.py:86-87 | `1:*` and `*:1` resolve alike, to every number from 1 to the last value |
| MessageParts.Get | localmail/inbox.py:183 | the header lookup gives the value of the first header whose name matches case-insensitively, and nothing exactly when no header matches |
| MessageParts.GetLower | localmail/inbox.py:186 | looking a header up under its lower-cased name finds the same value |
| MessageParts.GetHeaders | localmail/inbox.py:178-187 | without negate the keys are exactly the lower-cased requested names; with negate exactly the lower-cased names of the headers whose upper-cased name was not requested; every value is that header's value or "" |
| MessageParts.HeadersExcept | localmail/inbox.py:180-183 | the negate loop enters each kept header under its lower-cased name with its looked-up value |
| MessageParts.HeadersNamed | localmail/inbox.py:185-186 | the name loop enters each requested name, lower-cased, with its looked-up value or "" |
| MessageParts.KeptNamesMeaning | localmail/inbox.py:181-183 | the names the negate loop collects are exactly the lower-cased names of the headers not excluded |
| MessageParts.EncodeSurrogateEscape | localmail/inbox.py:200 | encoding succeeds exactly when every code point is ASCII or a surrogate escape, and then maps each code point to one byte; otherwise UnicodeEncodeError |
| MessageParts.SurrogateEscapeRoundTrip | localmail/inbox.py:192-200 | decoding bytes with surrogateescape and encoding them back gives the same bytes |
| MessageParts.GetBodyFile | localmail/inbox.py:189-201 | a multipart part raises TypeError; a byte payload is returned as is; a text payload gives its surrogateescape encoding, failing exactly when it holds an unencodable code point |
| MessageParts.BodyFileRoundTrip | localmail/inbox.py:189-201 | any 8-bit body the parser turned into escaped text is returned as the original bytes |
| MessageParts.GetSubPart | localmail/inbox.py:209-212 | a leaf part raises TypeError, an index past the children raises IndexError, otherwise the result is that child |
| MessageParts.FirstContaining | localmail/inbox.py:219-220 | finds the first chunk containing the word, and none exactly when no chunk contains it |
| MessageParts.IsMultipart | localmail/inbox.py:206-207 | a part is multipart exactly when its body file raises TypeError, and a leaf exactly when its sub-part lookup raises TypeError |
| MessageParts.CharsetFromChunks | localmail/inbox.py:219-222 | with no chunk containing "charset" the default; otherwise the first such chunk decides: the piece after its first '=', or IndexError when it has none |
| MessageParts.ParseCharset | localmail/inbox.py:214-222 | an attached charset wins; with no Content-type header the lookup raises; otherwise the charset comes from the ';'-separated chunks of that header |
| MessageParts.CharsetTextBetweenEquals | localmail/inbox.py:221 | the charset taken from a chunk is the text between its first and second '=' |
| MessageParts.Leaves | localmail/inbox.py:264-266 | the payloads `walk()` reaches are exactly those of the leaves in the tree; a leaf part gives its own payload alone |
| MessageParts.LeavesOf | localmail/inbox.py:264-266 | the payloads of a list of siblings are exactly those of the leaves below any of them |
| MessageParts.LeavesOfAppend | localmail/inbox.py:264-266 | the walk visits siblings in order: the leaves of two runs of siblings are the first run's followed by the second's |
| MessageParts.Payloads | localmail/inbox.py:263-269 | one entry per leaf in walk order, each paired with the charset of the top-level part; a charset lookup error surfaces exactly when there is a leaf |
| MessageParts.PayloadsIgnoreChildCharsets | localmail/inbox.py:268 | every payload is paired with one and the same charset |
| MessageParts.PayloadsIgnoreChildHeaders | localmail/inbox.py:263-269 | documents with the same top-level headers and charset and the same leaf payloads give the same payloads, whatever the inner parts declare |
| Inbox.Stored | localmail/inbox.py:141-149 | mode 0 makes the flags exactly the given ones, mode 1 adds them to the old ones, mode -1 takes them away, any other mode leaves the flags alone |
| Inbox.UidCounter.constructor | localmail/inbox.py:34-35 | the allocator starts with 0 as the last UID and nothing issued |
| Inbox.UidCounter.Next | localmail/inbox.py:45-48 | the new UID is one more than the last, becomes the last, and is above every UID issued before |
| Inbox.Message.constructor | localmail/inbox.py:237-248 | a new message draws a fresh UID from the allocator and gets `set(flags)` and its date |
| Inbox.Message.UpdateFlags | localmail/inbox.py:144-149 | the per-flag loop of store adds the flags (mode 1) or removes them (mode -1) |
| Inbox.CountFlagged | localmail/inbox.py:105 | the count equals the number of messages carrying the flag and is at most the message count |
| Inbox.Mailbox.constructor | localmail/inbox.py:76-80 | a new mailbox is empty, has no listeners and has the given UID validity |
| Inbox.Mailbox.AddMessage | localmail/inbox.py:56-65 | delivery appends one fresh message whose UID is above every UID issued before, with `set(flags or [])` and the given date or now; earlier messages and their flags are untouched |
| Inbox.Mailbox.GetMsgs | localmail/inbox.py:82-92 | an empty mailbox gives nothing; by UID exactly the messages whose UID is in the set, keyed by 0-based position; by sequence number every number n maps to `msgs[n - 1]` (0 to the last message), and IndexError exactly when a number exceeds the count |
| Inbox.Mailbox.Fetch | localmail/inbox.py:122-124 | fails exactly when addressing fails; otherwise lists exactly the addressed entries in ascending key order |
| Inbox.Mailbox.HierarchicalDelimiter | localmail/inbox.py:94-95 | the delimiter is "." |
| Inbox.Mailbox.SupportedFlags | localmail/inbox.py:97-99 | six distinct flags, the six system flags |
| Inbox.Mailbox.MessageCount | localmail/inbox.py:101-102 | the number of messages in the list |
| Inbox.Mailbox.RecentCount | localmail/inbox.py:104-105 | the number of messages carrying `\Recent` |
| Inbox.Mailbox.UnseenCount | localmail/inbox.py:107-108 | the number of messages carrying `\Unseen` |
| Inbox.Mailbox.IsWriteable | localmail/inbox.py:110-111 | the mailbox is always writable |
| Inbox.Mailbox.GetUIDValidity | localmail/inbox.py:113-114 | the token fixed at construction, which lies in 1000000..9999999, the source's random range |
| Inbox.Mailbox.GetUID | localmail/inbox.py:116-117 | the UID of `msgs[n - 1]`, with 0 giving the last message; IndexError exactly when the mailbox is empty or n exceeds the count |
| Inbox.Mailbox.UIDNext | localmail/inbox.py:119-120 | one more than the last allocated UID, so above every UID in the mailbox |
| Inbox.Mailbox.AddListener | localmail/inbox.py:126-128 | appends the listener and reports success; messages unchanged |
| Inbox.Mailbox.RemoveListener | localmail/inbox.py:130-132 | drops the first registration of the listener, and raises ValueError exactly when it is not registered |
| Inbox.Mailbox.Store | localmail/inbox.py:137-151 | fails exactly when addressing fails, changing nothing; otherwise every addressed message gets its new flags (replace, add or remove), other messages keep theirs, and the result maps each addressed key to the new flags |
| Inbox.Mailbox.Expunge | localmail/inbox.py:153-162 | the list becomes the messages without `\Deleted` in their order, the removed UIDs come in arrival order, and UIDs keep increasing along the list |
| Inbox.Mailbox.Destroy | localmail/inbox.py:164-166 | always refused, nothing changes |
| Inbox.ExpungeList | localmail/inbox.py:155-160 | the expunge loop over a copy, removing by identity, leaves exactly the survivors and records exactly the deleted UIDs |
| Inbox.StoreFlags | localmail/inbox.py:139-150 | every addressed message ends with its stored flags, also when two keys reach one message, and the result maps every key to them |
| Inbox.SelectByUid | localmail/inbox.py:88-89 | keys are exactly the positions of messages whose UID is requested |
| Inbox.SelectBySequence | localmail/inbox.py:92 | keys are exactly the requested numbers, each mapped by Python indexing, and IndexError exactly when one exceeds the count |
| Inbox.StoredIdempotent | localmail/inbox.py:140-150 | storing the same flags with the same mode twice is storing once |
| Inbox.SurvivorsExclude | localmail/inbox.py:159 | a message does not occur among the survivors of the messages before it |
| Inbox.PrefixStep | localmail/inbox.py:156-160 | each message of the scan adds exactly its own contribution to the survivors or the removed UIDs |
| Inbox.DropStep | localmail/inbox.py:157-160 | one removal by identity turns the list under edit into the survivors so far followed by the rest |
| Inbox.KeepStep | localmail/inbox.py:156-157 | a message without `\Deleted` stays where it is |
| Inbox.SurvivorsKeepUids | localmail/inbox.py:153-162 | survivors keep UIDs within the allocated range |
| Inbox.SurvivorsKeepOrder | localmail/inbox.py:153-162 | expunge keeps UIDs increasing along the list |
| InboxLaws.SurvivorsExact | localmail/inbox.py:156-159 | a message survives exactly when it lacks `\Deleted` |
| InboxLaws.ExpungePartition | localmail/inbox.py:156-160 | the survivors and the reported UIDs together number exactly the messages |
| InboxLaws.KeptOrReported | localmail/inbox.py:156-160 | with UIDs increasing along the list, every message is either kept or has its UID reported, never both |
| InboxLaws.DeletedUidsComplete | localmail/inbox.py:157-160 | every message flagged `\Deleted` has its UID reported |
| InboxLaws.DeletedUidsSound | localmail/inbox.py:157-160 | every reported UID belongs to a message flagged `\Deleted` |
| InboxLaws.DeletedUidsAscending | localmail/inbox.py:153-162 | reported UIDs come out in increasing order |
| InboxLaws.NothingDeleted | localmail/inbox.py:153-162 | with nothing flagged, expunge keeps everything and reports nothing |
| InboxLaws.ExpungeIdempotent | localmail/inbox.py:153-162 | a second expunge of the survivors keeps them all and reports nothing |
| InboxLaws.ExpungeTwice | localmail/inbox.py:153-162 | on a mailbox, the second of two consecutive expunges returns nothing |
| InboxLaws.ExpungeThenDeliver | localmail/inbox.py:45-48 | expunge does not give UIDs back: the next delivery gets the UID announced before, above every UID the mailbox held |
| InboxLaws.AddThenRemove | localmail/inbox.py:144-149 | adding then removing the same flags leaves the old flags minus them, equal to the old flags exactly when none was set |
| InboxLaws.ReplaceForgets | localmail/inbox.py:141-142 | replacing makes the flags exactly the given list, whatever they were |
| InboxLaws.SequenceStarIsLast | localmail/inbox.py:91-92 | by sequence number `*` addresses the last message |
| InboxLaws.SequenceNumberAgreesWithGetUID | localmail/inbox.py:92 | sequence number n addresses the message whose UID `getUID(n)` reports |
| InboxLaws.SequenceNumberTooLarge | localmail/inbox.py:92 | a sequence number above the count raises IndexError |
| InboxLaws.SequenceAll | localmail/inbox.py:91-92 | `1:*` by sequence number addresses every message under its number |
| InboxLaws.UidAddressesItsMessage | localmail/inbox.py:86-89 | a message's UID addresses that message alone, under its position |
| InboxLaws.UidAll | localmail/inbox.py:86-89 | `1:*` by UID addresses every message under its position |
| InboxLaws.UidStar | localmail/inbox.py:86-89 | by UID `*` addresses the newest message if it is still there, nothing otherwise |
| InboxLaws.ExpungeFirstOfTwo | localmail/inbox.py:156-160 | of two messages with only the first deleted, expunge keeps the second and reports the first |
| InboxLaws.DeliverTwo | localmail/inbox.py:56-65 | two deliveries into a fresh mailbox get UIDs 1 and 2 and no flags |
| InboxLaws.DeleteWithMultiple | tests/test_localmail.py:166-171 | after two deliveries, deleting message 1 and expunging reports UID 1, leaves one message, sequence number 1 stands for UID 2 and the next UID is 3 |

## Left out

- The mbox mirror (`mbox`, `setFile`, `flush`) and logging are left out. They are side-effect sinks that nothing in the mailbox reads.
- Email parsing and serialisation (`message_from_binary_file`, `str(msg)`, `as_string`) are left out. A document is given already parsed, as a `Part` value.
- `getSize` is left out, because it depends on serialisation.
- `unicode` and `decode_header` are left out, because they need the email library's RFC 2047 decoder and Python's codecs.
- Transfer decoding (`get_payload(decode=True)`) is left out, and so is the codec call in `payloads`. The model pairs each leaf's raw payload with the charset name it would be decoded with.
- `payloads` decides multipart-ness by content main type. The model uses the part's structure instead.
- The UID validity drawn by `random.randint` is a constructor parameter, constrained to the same range.
- The current date from `email.utils.formatdate` is the `now` parameter.
- `requestStatus` is left out, because it delegates to Twisted's `statusRequestHelper`.
- The `zope.interface` declarations are left out.
- The `INBOX` global is left out. A `Mailbox` is constructed explicitly.
- The UID allocator is a module-level global shared by every mailbox; the model passes one `UidCounter` object around. Concurrent deliveries are not modelled.
- `__repr__` and the accessors `getUID`, `getFlags` and `getInternalDate` of `Message` are left out. The model reads the fields directly.
- Notifying listeners is not modelled; the source never notifies them either.
- Strings.Lower: case mapping covers ASCII letters only, which header names are made of; Python's full Unicode case mapping is not modelled.
- Strings.Upper: case mapping covers ASCII letters only, which header names are made of; Python's full Unicode case mapping is not modelled.
- MessageParts.GetSubPart: takes a non-negative index only; Python's negative indices into the child list are not modelled.
- Inbox.Mailbox.Fetch: lists entries in ascending key order. In the source, dictionary order follows Twisted's MessageSet iteration, which is ascending for UIDs but, for sequence numbers, depends on how the set was written. Order is not part of the `IMailbox` contract.
- Inbox.Mailbox.Store: the addressed messages are updated in some order; Python's dictionary order is not modelled. The result does not depend on the order.
- Inbox.Mailbox.Store: the result, like the source's, holds each message's flags after the whole call. The source returns the message's own set object, so the aliasing of that object is not modelled.
- Inbox.Mailbox.Expunge: the loop runs on a copy of the list and the result is written back once. Intermediate states of `self.msgs` during the loop are therefore not modelled; they are visible to nothing. The `requires Valid()` reflects how the allocator builds the list: UIDs increase, so no message occurs twice.
- InboxLaws.DeleteWithMultiple: stores `\Deleted` with mode 1 (add). The test's client helper is not part of this model, so the mode it sends is not pinned down; message 1 starts with no flags, so mode 0 (replace) would leave it with the same flags.
- The MessageSet's `last` attribute, which the source assigns before iterating, is the `last` argument of `MessageSets.Resolve`.

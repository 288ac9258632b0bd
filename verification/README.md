# Verified models of a mail server's core

This project models the parts of an SMTP server and of the libraries in its tree where a mistake is
easy to make and hard to see, and proves what they are for.  All of it is Dafny 4.11;
`dafny verify dfyconfig.toml` checks the whole project.

Four groups of modules, which share only `Options`, `Seqs` and `Arith`:

**DNS messages** (`DnsName`, `DnsPut`, `DnsAnswer`, `DnsRecords`).  The meaning of an encoded name is the relation
`NameAt`, read off section 4.1.4 of RFC 1035: labels, a root, and pointers that may go anywhere.
The pass that measures a name and the pass that expands it are loops over the octets of a packet;
both accept exactly the names that the relation gives within the limit on indirections, both end on
every packet, every index is inside it, and the second gives exactly the length the first foretold.
The encoder is proved against the labels that a text with backslash escapes stands for: it accepts
exactly when these are within the limits of the protocol, although its counter of eight bits wraps.
The checker of answers says "bogus" exactly on the messages that are not the header, the one
question that was asked and a tiling of the rest by records; and on what it accepts no reader of
records runs over the end.  An answer that is written octet by octet as the standards say, with any
records of the types that are read, is accepted, and the values of its records come out in order.

**The PCG generators** (`Lcg`, `PcgEngine`, `Output`, `Bounded`, with `Arith`).  Words are numbers
modulo 2^n, or sequences of bits where the code works on bits.  Jumping ahead in logarithmic time is
stepping one by one; the distance between two states is found bit by bit and is unique; the output
function is a permutation; bounded draws are uniform; a shuffle of distinct elements reaches every
permutation by exactly one list of choices, and by equally many draws of the engine.

**SMTP transactions** (`Store`, `SmtpSession`, `DataTransfer`, `BdatTransfer`, `SmtpTransaction`).  A session is an
object whose methods are proved against functions on its state; the state carries the reply codes
and a history of events that no operation reads.  Over every run of commands every delivery is right
by that history, and a transaction that nothing refuses is delivered.  The client's two ways to send a message are proved against the server's two ways
to take one, octet by octet from the client to the store.

**Codecs with a specification to meet** (`Sha256Block`, `Sha256`, `Sha256Example`; `Ascii`, `Base32`,
`Utf8`, `Mailbox`, `MailboxTexts`, `Reply`; `Message`, `HeaderFields`; `Base64`; `Decimal`).  SHA-256 on
masked words of 64 bits against FIPS 180-4; reply addresses that describe themselves; header fields
with folding; base 64 with line breaks; decimal text for numbers of 128 bits.  The grammars of
mailboxes and header fields take exactly the texts that are written out character by character in
`MailboxTexts` and `HeaderFields`.

Some properties that one would expect turn out to hold only under a condition.  In these cases the
exact condition is proved, in both directions:

- Stepping back undoes stepping forward for all states exactly when the multiplier is odd, and all
  states reach each other exactly when the multiplier is 1 modulo 4 and the increment is odd
  (`BackstepUndoesIff`, `AllReachableIff`).
- A message sent by DATA arrives unchanged, once all of its text comes through, exactly when each of
  its lines ends in CR LF and fits the buffer of the server's parser as it is sent, and no line that
  begins with a dot has more than 998 octets before its end or another CR (`ArrivesUnchangedIff`,
  `TransparentIff`).
  The parser gives up on a line that does not fit, answers 421 and delivers nothing (`LongLineFails`);
  a long line keeps the dot that the client has put before it (`LongDotLineKeepsDot`).
- The client's transfer succeeds and the message is delivered exactly when all that is sent comes
  through the connection, whose limit on octets read every reset renews, and the lines fit the buffer
  and the whole fits the size limit (`DataEndToEnd`, `SendData`, and `BdatEndToEnd`, `MessageByBdat`
  for chunks, each of which takes a command line of its own).  A text that is cut short never looks
  complete (`CutFails`), and a message of dots below the size limit can be too long to be sent
  (`ReadLimitDecides`).
- A transaction of commands that nothing refuses is delivered exactly when it fits the size limit and no
  MAIL since the last reset has announced binary MIME.  A MAIL that was refused counts, so that a
  message that announces nothing may be refused too (`TransactionDelivers`, `RefusedMailSpoilsNext`).
- The length CHECK at the end of the base 64 encoder holds exactly under `SizeForetold`: without
  wrapping, always; with a width that is a multiple of 4, when no line is full at the end of a padded
  text; with other widths, only when the text is shorter than
  a line or its one break falls into the padded group at its end (`SizeForetoldIff`, `FullPaddedLine`).
- Printing a parsed message gives back its text exactly when all fields end in CR LF and there is no
  separating line without a body (`ParseThenPrintIff`, `LineFeedIsNotKept`, `EmptyBodyIsNotKept`).
- A reply address with separators comes back exactly when the sender's local part does not make it
  begin like the old format and our local part does not have three underscores with a sender and a
  fitting hash between them (`SeparatedRoundTripIff`); both do occur (`PrefixOccurs`,
  `MisreadOccurs`).  A blob comes back exactly when the two addresses in it have at least eight octets
  and ours is neither empty nor has a zero octet in it (`BlobRoundTripIff`, `ShortBlobIsLost`).
- Digits are read as their number modulo 2^128, and an overflow is flagged exactly when one of the
  numbers on the way is noticed by the two tests of a round (`ReadDigitsIs`); for numbers with at most
  one digit too many, quotient and remainder by ten decide (`FlaggedIffNoticed`).  A 4 with 38 zeros
  is read as another number without a flag (`UnseenOverflow`).

## Model

| member | source | states |
|---|---|---|
| DnsName.NameAtDecodes | DNS-message.cpp:239-360 | whatever the relation `NameAt`, read off section 4.1.4 of RFC 1035, gives as the labels of a name is what decoding gives |
| DnsName.WellFormedIffDecodes | DNS-message.cpp:239-297 | decoding with at most min(50, message size) indirections succeeds exactly on the names the relation gives, and the labels are the only ones it gives |
| DnsName.PointerIsName | DNS-message.cpp:252-261 | two octets of 192 + o / 256 and o % 256 lead to the name at offset o, for every offset of 14 bits |
| DnsName.PointersAreLimited | DNS-message.cpp:263-270 | a name behind more than 50 pointers, or more than the message has octets, is not well formed |
| DnsName.TextExample | DNS-message.cpp:339-348 | labels with a dot and a backslash in them, octet by octet |
| DnsName.NameLength | DNS-message.cpp:239-297 | ends on every packet with every index inside it; -1 exactly on names that do not decode, else the length of the text with its escapes |
| DnsName.ExpandName | DNS-message.cpp:299-360 | succeeds exactly on the well-formed names, gives their text, of the length foretold, and the size of the name in place |
| DnsName.LabelsNonEmpty | DNS-message.cpp:246-290 | every label of a decoded name has 1 to 63 octets |
| DnsPut.CountLabel | DNS-message.cpp:377-384 | the counter of eight bits is the size of the label in front of the text modulo 256 |
| DnsPut.PutLabel | DNS-message.cpp:391-396 | writes the counted octet and the label without its escapes, and nothing behind it |
| DnsPut.LimitsFromWrapped | DNS-message.cpp:383-412 | labels that pass the check of the wrapped counter and have at most 255 octets together are all within 63 octets |
| DnsPut.NamePut | DNS-message.cpp:364-415 | accepts exactly the texts whose labels have 1 to 63 octets and at most 255 in all, writes their wire form, and on every path writes at most two octets more than the text has |
| DnsPut.LabelsOfText | DNS-message.cpp:313-345 | the text that non-empty labels expand to stands for the same labels |
| DnsPut.LabelsOfSpellings | DNS-message.cpp:371-402 | a text of labels with dots between them stands for these labels, however their octets are escaped and whether or not a dot ends it |
| DnsPut.EmptyLabelsHaveNone | DNS-message.cpp:371-375 | a text with an empty label, in front or behind others, stands for none |
| DnsPut.WireIsName | DNS-message.cpp:391-405 | the wire form of labels, wherever it lies in a packet, means these labels without indirection and has its own size in place |
| DnsPut.WireThenPointer | DNS-message.cpp:248-291 | the wire form of labels with a pointer behind it decodes to these labels and those at the offset, and has its own size in place |
| DnsPut.NamesRoundTrip | DNS-message.cpp:364-415 | a wire form decodes to its labels, and the text it expands to stands for the same labels |
| DnsPut.Reencode | DNS-message.cpp:299-415 | expanding a name of a packet and encoding the text writes the wire form of its labels, exactly when they are within the limits; where the name was in one piece these are its own octets |
| DnsPut.TextIsCString | DNS-message.cpp:313-345 | labels without zero octets expand to a text without zero octets |
| DnsPut.CreateQuestion | DNS-message.cpp:428-464 | makes a question exactly for the names that can be encoded, and which octets it has |
| DnsPut.QuestionReadsBack | DNS-message.cpp:485-498 | a question of ours has one name that decodes to what was asked, and its type, class and id where the CHECKs look for them |
| DnsAnswer.CreatedIsOwn | DNS-message.cpp:485-498 | no CHECK on a question of our own making fails |
| DnsAnswer.SkipRecords | DNS-message.cpp:580-633 | the walk over records succeeds exactly when each begins with a well-formed name and lies inside the message, and ends behind the last |
| DnsAnswer.WalkTiles | DNS-message.cpp:580-640 | a walk that ends at the end of the message has cut it into that many records without gap or overlap |
| DnsAnswer.TiledWalks | DNS-message.cpp:580-640 | and every such tiling is walked |
| DnsAnswer.CheckAnswer | DNS-message.cpp:466-641 | bogus exactly when the answer is not a header, the question as it was asked and a tiling by the records counted in the header; the other flags are those of the header; a CHECK fails exactly when the question is not of our making |
| DnsAnswer.NoOverrun | DNS-message.cpp:643-774 | inside a record whose data lies in the message no reader of any type touches an octet outside it |
| DnsAnswer.GetTxt | DNS-message.cpp:697-716 | the loop over the strings of a TXT record gives what the specification of reading gives |
| DnsAnswer.GetRR | DNS-message.cpp:643-774 | every type is read by its own rule or not at all; the lemmas of `DnsRecords` say what each is read as |
| DnsAnswer.GetRecords | DNS-message.cpp:776-825 | the loops over questions and answers give what the specification of fetching gives, for both values of the flag on entry and with failed bounds told apart |
| DnsAnswer.FetchTiled | DNS-message.cpp:795-825 | over a tiling, fetching collects exactly the records of the tiling one by one |
| DnsAnswer.GoodAnswerReads | DNS-message.cpp:776-825 | on every message that is accepted the fetch takes none of the branches for failed bounds, all records lie inside, and the result is that of the answer records in order |
| DnsAnswer.TxtReadsStrings | DNS-message.cpp:697-716 | the data of a TXT record made of strings is read as these strings joined |
| DnsAnswer.TxtIsStrings | DNS-message.cpp:697-716 | and what is read without error is made of strings |
| DnsRecords.ReadsA | DNS-message.cpp:643-651 | four octets of data of type 1 are the address |
| DnsRecords.ReadsName | DNS-message.cpp:653-675 | the data of types 5 and 12 is the name that stands there, compressed or not |
| DnsRecords.ReadsMx | DNS-message.cpp:677-695 | two octets of preference, the higher first, and the name behind them |
| DnsRecords.ReadsTxt | DNS-message.cpp:697-716 | data of type 16 made of strings is read as these strings joined |
| DnsRecords.ReadsAaaa | DNS-message.cpp:718-726 | sixteen octets of data of type 28 are the address |
| DnsRecords.ReadsTlsa | DNS-message.cpp:735-754 | three octets and all the rest of the data |
| DnsRecords.RejectedIff | DNS-message.cpp:643-774 | for each type when a record is rejected, and which types are of no interest |
| DnsRecords.EntryReads | DNS-message.cpp:192-226 | a record written field by field, with its length in two octets, is found and read as what it says |
| DnsRecords.EntriesTile | DNS-message.cpp:795-825 | records written one after the other tile the message and are collected as what they say |
| DnsRecords.HeaderReads | DNS-message.cpp:67-80 | counts, response code and flags of a header written field by field |
| DnsRecords.AnswerReadsBack | DNS-message.cpp:466-825 | for every name, question and list of records of the types that are read: the answer written octet by octet is good exactly when it is whole, free of errors and not without records, and its answer section is read as what was written |
| DnsRecords.QuestionIsTiled | DNS-message.cpp:429-464 | the octets of the header and that exactly one OPT record, with its size and the DO bit, follows the question |
| DnsRecords.SameNameIff | Domain.hpp:69-72 | names match when they agree but for the case of the letters and a dot at the end |
| Lcg.Advance | pcg_random.hpp:610-639 | the logarithmic jump equals stepping one by one, for every multiplier, increment and stride modulo 2^n |
| Lcg.IterateAdd | pcg_random.hpp:431-434 | steps add up |
| Lcg.BumpTwice | pcg_random.hpp:635-636 | two steps are one step with the squared constants of the loop |
| Lcg.IterateSquare | pcg_random.hpp:628-637 | steps with the squared constants are twice as many steps |
| Lcg.PeriodOfLowBits | pcg_random.hpp:641-662 | the low k + j bits come back exactly after multiples of 2^j steps when bit k is the lowest that moves |
| Lcg.FullPeriod | pcg_random.hpp:368-372 | with a multiplier of 1 modulo 4 and an odd increment a state comes back exactly after multiples of 2^n steps |
| Lcg.McgPeriod | pcg_random.hpp:368-372 | a multiplicative generator with a multiplier of 5 modulo 8 and an odd state has period 2^(n-2) exactly |
| Lcg.StepsUnique | pcg_random.hpp:641-662 | fewer than a period of steps are determined by where they lead |
| Lcg.AllReachableIff | pcg_random.hpp:137-152 | all states reach each other exactly when the multiplier is 1 modulo 4 and the increment odd, as all default constants are |
| Lcg.UnreachablePair | pcg_random.hpp:641-662 | for all other constants there are two states between which no number of steps leads |
| Lcg.McgReachesIff | pcg_random.hpp:641-662 | a multiplicative generator leads from one odd state to another exactly when their two low bits agree |
| PcgEngine.LoopNeverEnds | pcg_random.hpp:647-660 | and where none leads from one state to another, no round of the loop comes to the other one |
| Lcg.BackstepUndoes | pcg_random.hpp:436-439 | advancing by the negated stride undoes the advance, and the reverse, for odd multipliers |
| Lcg.BackstepUndoesIff | pcg_random.hpp:436-439 | and exactly for these |
| Lcg.EvenMultiplierCollides | pcg_random.hpp:387-390 | with an even multiplier two states step to the same one |
| PcgEngine.Distance | pcg_random.hpp:641-662 | the loop ends within the word, its assertion holds, and advancing by the result leads to the new state up to the mask; with a full mask no other stride below the period does |
| PcgEngine.OnlyDistance | pcg_random.hpp:641-662 | the stride that leads from one state to another is unique below the period |
| PcgEngine.LibraryGeneratorsMove | pcg_random.hpp:137-152 | all generators that the library defines meet what the distance needs: default multipliers with default, chosen or no increment |
| PcgEngine.Engine.constructor | pcg_random.hpp:456-474 | the initial state of both kinds of generator, valid from the start |
| PcgEngine.Engine.BaseGenerate0 | pcg_random.hpp:397-402 | gives the state and steps once |
| PcgEngine.Engine.AdvanceBy | pcg_random.hpp:431-434 | the state after that many steps |
| PcgEngine.Engine.Backstep | pcg_random.hpp:436-439 | afterwards that many steps lead to the old state |
| PcgEngine.Engine.Minus | pcg_random.hpp:666-680 | an exception exactly for different constants, else the only number of steps below the period from one generator to the other |
| PcgEngine.BackstepThenAdvance | pcg_random.hpp:436-439 | the negated stride and then the stride lead back |
| Output.UnxorshiftUndoes | pcg_extras.hpp:264-282 | the recursion undoes the xorshift at every width and every shift above 0 |
| Output.UnxorshiftIsPreimage | pcg_extras.hpp:264-282 | and the xorshift undoes the recursion |
| Output.MultipliersInverse | pcg_random.hpp:877-892 | each pair of output multipliers is inverse modulo 2^n |
| Output.UnoutUndoesOut | pcg_random.hpp:901-936 | unoutput undoes output at every width for every inverse pair of multipliers |
| Output.OutUndoesUnout | pcg_random.hpp:901-936 | and output undoes unoutput |
| Output.OutputIsPermutation | pcg_random.hpp:895-936 | with the library's own multipliers, at its five widths |
| Output.OutputSteps | pcg_random.hpp:895-915 | the output bit by bit in three steps, with the numbers of each of the five widths |
| Bounded.BoundedRand | pcg_extras.hpp:516-528 | returns the residue of the first draw that is at least 2^n modulo the bound |
| Bounded.ThresholdValue | pcg_extras.hpp:520-521 | the threshold computed with wrapping arithmetic is 2^n modulo the bound |
| Bounded.Uniform | pcg_extras.hpp:516-528 | the accepted draws are a multiple of the bound in number, and each residue has exactly the same number of them |
| Bounded.Shuffle | pcg_extras.hpp:530-542 | in place and in range, a permutation at every moment, and the one given by the choices, each of which is the residue of the first draw not rejected for its bound after the one before; it stops only when no such draw is left |
| Bounded.ShuffledFacts | pcg_extras.hpp:530-542 | every list of choices gives a permutation that leaves the rest alone |
| Bounded.ShuffledInjective | pcg_extras.hpp:530-542 | different choices shuffle distinct elements differently |
| Bounded.ShuffledSurjective | pcg_extras.hpp:530-542 | every permutation is reached by some choices |
| Bounded.ShuffledThree | pcg_extras.hpp:535-541 | three elements under three lists of choices |
| Bounded.AllAreUsed | pcg_extras.hpp:535-541 | draws none of which is rejected are used one after the other, and suffice |
| Bounded.EveryOrderEquallyOften | pcg_extras.hpp:516-542 | of the draws none of which is rejected, equally many lead to each order of distinct elements, and how many |
| Store.WriteAllResult | MessageStore.cpp:57-67 | the limit decides on the total alone, however it is cut into writes: all octets in order, or the sticky error; the limit is never exceeded |
| Store.MessageStore.Open | MessageStore.cpp:23-55 | an empty file with a new limit; an error is not cleared |
| Store.MessageStore.Write | MessageStore.cpp:57-67 | a write is kept whole or dropped whole, and after a dropped one all are |
| SmtpSession.RunDeliversRight | Session.cpp:269-295 | over every run of commands each delivery is the only one of its transaction, for the one accepted sender and the 1 to 100 recipients accepted since, in order, of octets that came wholly from one DATA or wholly from BDATs; before that there are no recipients and no open message |
| SmtpSession.NextInv | Session.cpp:461-1400 | every command keeps the agreement between the fields of the session and its history |
| SmtpSession.RunInv | Session.cpp:461-1400 | and so does every run |
| SmtpSession.OnlyResetLeavesRset | Session.cpp:269-295 | the state after a refused DATA is left only by a reset |
| SmtpSession.BdatOneReply | smtp.cpp:512-565 | every BDAT command, whatever its input, is answered exactly once |
| SmtpSession.RejectedWrites | Session.cpp:890-898 | the octets of a refused chunk go nowhere |
| SmtpSession.WritesStore | Session.cpp:890-905 | in a transfer every piece goes to the store in order |
| SmtpSession.Session.ResetAll | Session.cpp:269-295 | the whole state after a reset: identity, connection and counters are kept, and the limit on octets read is renewed |
| SmtpSession.Session.SetMaxMsgSize | Session.cpp:245-256 | the size to advertise and the limit on octets read that follows from it or from the flag |
| SmtpSession.Session.MaxOut | Session.cpp:1470-1475 | the end of a session that has read too much |
| SmtpSession.Session.Lo | Session.cpp:383-459 | HELO and EHLO reset, and check an identity only when it is another domain, without regard to case |
| SmtpSession.Session.VerifyFromParams | Session.cpp:1924-1990 | the loop over the parameters of MAIL: first refusal wins, flags set before it stay |
| SmtpSession.ParamsAcceptedIff | Session.cpp:1924-1990 | the parameters are accepted exactly when none is refused; else one reply, that of the first refused, and only the flags before it |
| SmtpSession.Session.MailFrom | Session.cpp:461-522 | the whole state after MAIL on each path |
| SmtpSession.Session.RcptTo | Session.cpp:592-663 | the whole state after RCPT on each path, and the limit of 100 |
| SmtpSession.Session.MsgNew | Session.cpp:820-888 | a fresh store with the added headers; the limit is fixed by the first message |
| SmtpSession.Session.MsgWrite | Session.cpp:890-933 | refused without a transfer, else passed to the store; true even when the store drops it |
| SmtpSession.Session.DataStart | Session.cpp:935-1004 | the three outcomes of DATA and the state after each |
| SmtpSession.Session.DataDone | Session.cpp:1203-1258 | delivers, or refuses a message that is too large, and resets |
| SmtpSession.Session.BdatStart | Session.cpp:1271-1306 | opens the message with the first chunk only |
| SmtpSession.Session.BdatDone | Session.cpp:1308-1359 | what the end of a chunk does, with its five outcomes |
| SmtpSession.Session.BdatError | Session.cpp:1361-1392 | one reply and a reset |
| DataTransfer.DoData | Send.cpp:724-751 | the loop that stuffs dots and completes line ends sends exactly the specified text |
| DataTransfer.SendData | Send.cpp:711-760 | client and server together: the client returns true exactly when the server delivered, and on which messages, limits and connections that is |
| DataTransfer.DataAct | smtp.cpp:583-668 | the server's loop of matches and actions, within a buffer of any size, has exactly the effect of the parsed pieces on the session |
| DataTransfer.LineReceived | smtp.cpp:236-265 | the grammar takes exactly one sent line at a time and writes what is received of it |
| DataTransfer.LooksAtLine | smtp.cpp:236-265 | the rules look at a sent line and not an octet further |
| DataTransfer.DataArrives | smtp.cpp:645-651 | for every message and every buffer: when all sent lines fit, the grammar stops at the final dot and never before, and leaves the octets that follow; otherwise it runs into the end of the buffer |
| DataTransfer.ArrivesUnchangedIff | Send.cpp:724-751 | when all of the text comes through, the final dot is reached with exactly the octets of the message exactly when its lines meet a condition on line ends, dots and length, the buffer included |
| DataTransfer.TransparentIff | smtp.cpp:236-265 | the messages that arrive unchanged are exactly the sequences of lines that fit as they are sent and, if they begin with a dot, have at most 998 octets and no CR |
| DataTransfer.TextArrives | smtp.cpp:243-250 | in particular all lines of at most 998 octets without CR and LF, with a buffer of 1001 |
| DataTransfer.CutFails | smtp.cpp:265-265 | a text that is cut anywhere before its end never reaches a final dot |
| DataTransfer.DataThrough | SockBuffer.cpp:47-75 | for every number of octets that come through: the final dot is reached exactly when that is all of the text and its lines fit |
| DataTransfer.ReadLimitDecides | Session.cpp:245-256 | a message of dots that is below the size limit and still has more octets on the wire than may be read |
| DataTransfer.BareLineFeedGetsCr | Send.cpp:743-750 | a line that ends in a bare LF arrives with a CR |
| DataTransfer.LongLineFails | smtp.cpp:645-666 | a line of letters longer than the buffer makes the parser give up |
| DataTransfer.LongDotLineKeepsDot | smtp.cpp:243-250 | a dot and 998 letters arrive with two dots |
| DataTransfer.DataEndToEnd | smtp.cpp:583-668 | from the client's text to the delivered file: headers and message to the accepted recipients when all comes through, the lines fit the buffer and the whole fits the limit; else 552 with a reset, or 421 or no reply with the transaction left open, and no delivery |
| SmtpTransaction.RcptTakenIff | Session.cpp:592-663 | a recipient is taken, with 250, exactly in a transaction with fewer than 100 when no check refuses it; the reply and the state in all cases |
| SmtpTransaction.RcptsRun | Session.cpp:592-663 | up to 100 recipients are all taken, in order |
| SmtpTransaction.MailTaken | Session.cpp:461-522 | a sender with parameters none of which is refused is taken, and which flags are set |
| SmtpTransaction.TransactionDelivers | Session.cpp:461-1262 | a whole transaction of commands that are not refused: which replies it gets and that its message is delivered from the sender to all recipients, exactly under the conditions on size and binary MIME |
| SmtpTransaction.RefusedMailSpoilsNext | Session.cpp:1924-1990 | a refused MAIL that announced binary MIME before the size has the next message refused |
| BdatTransfer.TransferAll | smtp.cpp:518-560 | the loop of reads passes on the octets of the chunk in order through a buffer of any size |
| BdatTransfer.TransfersWhole | smtp.cpp:518-560 | and these are all octets of the chunk |
| BdatTransfer.BdatAct | smtp.cpp:512-565 | takes exactly the octets of its chunk from the input also when refused, with the effect of the command on the session |
| BdatTransfer.DoBdat | Send.cpp:762-802 | the client's loop against the server, through a connection that lets any number of octets through, has the outcome of sending the chunks one after the other |
| BdatTransfer.SendChunk | Send.cpp:770-791 | one chunk with its command line at both ends, whole, cut in its line or cut in its octets |
| BdatTransfer.ChunkResult | Session.cpp:1308-1359 | a whole chunk is accepted and appended, or refused for its size and the message dropped |
| BdatTransfer.BdatEndToEnd | Send.cpp:762-802 | for any chunks and any transfer size the client succeeds exactly when the exchange with all its command lines comes through and headers and chunks fit the limit, and then exactly they are delivered |
| BdatTransfer.CutResult | smtp.cpp:529-548 | a chunk that does not come through whole delivers nothing |
| BdatTransfer.MessageByBdat | Send.cpp:762-802 | in particular a message read through a buffer of any size is delivered whole and unchanged exactly under these conditions |
| BdatTransfer.BdatRefused | Session.cpp:1271-1306 | without recipients the client is told of failure and nothing is delivered |
| Sha256Block.TableIsCubeRoots | picosha2.h:50-61 | every constant of the table is the first 32 bits of the fraction of the cube root of its prime, as section 4.2.2 of FIPS 180-4 has it |
| Sha256Block.InitialIsSquareRoots | picosha2.h:63-65 | every initial word is the first 32 bits of the fraction of the square root of its prime, as section 5.3.3 has it |
| Sha256Block.Bsig0Wide | picosha2.h:73-78 | on words without upper bits the function on 64 bits is that of the standard on 32 |
| Sha256Block.Ssig1Wide | picosha2.h:82-89 | the same with a plain shift in it |
| Sha256Block.ChoiceWide | picosha2.h:67-71 | the complement in the choice leaves no upper bits behind |
| Sha256Block.FillSchedule | picosha2.h:95-106 | the array holds the message schedule of section 6.2.2, without upper bits |
| Sha256Block.RoundWide | picosha2.h:118-127 | sums that are masked once at the end are sums modulo 2^32 |
| Sha256Block.RoundFits | picosha2.h:118-127 | and before that nothing of them is lost: on 64 bits they are the sums of the numbers |
| Sha256Block.Sum4Fits | picosha2.h:103-106 | the same for the sum of the message schedule |
| Sha256Block.HashBlock | picosha2.h:91-140 | the digest after the block is the compression of section 6.2.2 on 32-bit words, again without upper bits |
| Sha256.PaddingIsSmallest | picosha2.h:205-222 | the padding has the smallest number of zero bits that section 5.1.1 allows |
| Sha256.PaddedBlocks | picosha2.h:205-222 | the one or two last blocks are the end of the padded message |
| Sha256.Hasher.Process | picosha2.h:193-203 | the state afterwards is that of the message with the octets appended |
| Sha256.Hasher.Finish | picosha2.h:205-222 | the digest is the hash of the whole padded message |
| Sha256.Hasher.AddToDataLength | picosha2.h:235-247 | the four limbs represent the sum modulo 2^64, also when the first sum wraps |
| Sha256.Hasher.WriteDataBitLength | picosha2.h:248-268 | eight times the length modulo 2^64, the most significant octet first |
| Sha256.Hasher.GetHashBytes | picosha2.h:224-232 | as many octets of the digest as there is room for |
| Sha256.DigestReadsBack | picosha2.h:224-232 | the octets of the digest read as words are the hash value |
| Sha256.HashPieces | picosha2.h:193-222 | however a message is cut into pieces, the digest is that of the whole |
| Sha256.HashStream | picosha2.h:298-317 | reading a stream through a buffer of any size gives the same digest |
| Sha256Example.HighestBit | picosha2.h:73-89 | where the four functions of rotations and shifts take the highest bit |
| Sha256Example.FourWordsBefore | picosha2.h:103-106 | which four words a later word of the schedule is the sum of |
| Sha256Example.FirstRounds | picosha2.h:118-134 | the first three rounds of the example of the standard, word by word |
| Sha256Example.BlockOfExample | picosha2.h:205-222 | its padded block, octet by octet |
| Base32.RoundTrip | Reply.cpp:123-125 | decoding the lower-cased encoding gives back every octet string |
| Base32.DigitsInOrder | Reply.cpp:154-166 | the 32 digits by name |
| Base32.FiveOctets | Reply.cpp:63-63 | five octets are eight digits of five bits, the most significant first |
| Base32.FewerThanFive | Reply.cpp:63-63 | fewer octets are filled up with zero bits to whole digits |
| Ascii.EqualIgnoringCaseIff | Reply.cpp:141-141 | what agrees without regard to case, by the numbers of the letters |
| Utf8.EncodedIsTaken | Mailbox.cpp:18-33 | the grammar takes the encoding in UTF-8 of every code point of two octets or more |
| Utf8.TakenIsEncoded | Mailbox.cpp:18-33 | and nothing else: no surrogates, no longer forms than needed, nothing beyond the last code point |
| MailboxTexts.DotStringIff | Mailbox.cpp:41-52 | unquoted local parts are exactly the atoms of letters, digits, signs and the rest of Unicode with single dots between them |
| MailboxTexts.QuotedStringIff | Mailbox.cpp:119-126 | quoted local parts are exactly the listed characters and escapes between quotes |
| MailboxTexts.DomainIff | Mailbox.cpp:64-78 | domains are exactly the labels of letters, digits and inner hyphens with dots between them, with the rest of Unicode in labels that begin so |
| Mailbox.DomainClean | Mailbox.cpp:64-78 | a domain is a dot string without the characters that separate the parts of a reply address |
| Mailbox.ParsedClean | Mailbox.cpp:200-211 | an accepted text is its two parts with an at sign, and has no zero octets |
| Mailbox.LocalParts | Reply.cpp:80-87 | what is accepted with a stand-in domain behind it is a local part itself |
| Reply.SplitAll | Reply.cpp:106-118 | the loop that splits gives the parts between runs of the delimiter |
| Reply.EncNeverDies | Reply.cpp:89-92 | the CHECK on the domain never fails |
| Reply.EncWrittenOut | Reply.cpp:45-104 | the text of every encoding with its hash of six digits, written out for both separators and the blob |
| Reply.OldFormatReads | Reply.cpp:247-288 | the old format is read as hash, our local part, the sender's and the domain, with prefix and hash in either case |
| Reply.OldBlobReads | Reply.cpp:241-245 | a blob behind the old prefix is read |
| Reply.SeparatedDecodes | Reply.cpp:175-233 | taken apart at its separator from the back, an address gives what it was made of |
| Reply.SeparatedIsLocalPart | Reply.cpp:94-99 | an encoding with separators is a valid local part that cannot be taken for a blob |
| Reply.SeparatedRoundTripIff | Reply.cpp:290-321 | for every address encoded with separators: it comes back exactly when it does not begin like the old format and is not misread at underscores, both said of the parts that are encoded |
| Reply.MisreadIff | Reply.cpp:175-233 | reading the underscores gives something exactly when our local part has three with a sender and a fitting hash between them |
| Reply.LooksOldIff | Reply.cpp:293-296 | which senders make an encoding begin like the old format |
| Reply.OldNeverGives | Reply.cpp:241-288 | the old format never gives back what was encoded, because its hash would be an octet short |
| Reply.MisreadNeedsThree | Reply.cpp:312-316 | with fewer than three underscores in our local part only the beginning matters |
| Reply.BlobRoundTripIff | Reply.cpp:120-148 | a blob comes back exactly when both addresses have at least eight octets together and ours is not empty and has no zero octet |
| Reply.PrefixIsLost | Reply.cpp:293-296 | an encoding that begins like the old format, with either separator, does not come back |
| Reply.PrefixOccurs | Reply.cpp:293-296 | a valid sender for which this happens, with any local part of ours that needs no blob |
| Reply.MisreadOccurs | Reply.cpp:312-316 | a valid pair that is misread when the digest is the same for all texts |
| Reply.ShortBlobIsLost | Reply.cpp:303-310 | a valid pair whose blob is too short to be taken for one |
| Message.Parsed.ParseMessage | message.cpp:1209-1213 | collects the fields and the body of the grammar, and keeps what was pushed when it fails |
| Message.Parsed.ParseHdr | message.cpp:1215-1223 | the new field goes to the front and the others keep their order |
| Message.Parsed.AsString | message.cpp:1225-1236 | the loop that prints |
| Message.HeaderReadsBack | message.cpp:114-124 | a well-formed field with any folding in it is read back from its line |
| HeaderFields.ValueIff | message.cpp:110-121 | the values of fields are exactly the visible characters, each after white space or a fold or nothing, and white space at the end |
| HeaderFields.WellFormedIff | message.cpp:114-121 | the headers that the grammar can give, by the characters of the name and the pieces of the value |
| HeaderFields.FoldedFieldParses | message.cpp:114-131 | a whole message with one folded field and a body is parsed as these |
| Message.PrintThenParseIff | message.cpp:114-131 | headers and body are parsed back from their text exactly when all headers are well-formed |
| Message.ParseIsStable | message.cpp:114-131 | parsing gives well-formed headers, and printing and parsing again changes nothing |
| Message.ParseThenPrintIff | message.cpp:1225-1236 | printing what was parsed gives the text itself exactly when all fields end in CR LF and no separating line stands without a body |
| Message.LineFeedIsNotKept | message.cpp:1225-1236 | a field that ends in LF is not printed as it was |
| Message.EmptyBodyIsNotKept | message.cpp:1225-1236 | nor is a separating line without a body |
| Base64.Enc | Base64.cpp:23-96 | the text is the encoding of section 4 of RFC 4648 with CR LF after every width of characters, for as many lines as the closed form `Breaks` says, and the CHECK holds exactly under the condition below |
| Base64.AlphabetIs | Base64.cpp:12-21 | the digits in their order |
| Base64.SixBitsAtATime | Base64.cpp:39-90 | the digits of three octets, and those of one and two at the end with the padding |
| Base64.SizeForetoldIff | Base64.cpp:29-33 | when the computed size is that of the text, for every length and width |
| Base64.FullPaddedLine | Base64.cpp:29-33 | one octet in lines of four, for which it is not |
| Base64.Dec | Base64.cpp:103-159 | the loop gives the octets of the digits before the padding, or throws exactly on a bad character before it |
| Base64.RoundTrip | Base64.cpp:103-159 | decoding undoes encoding wherever the lines are broken |
| Base64.EncThenDec | Base64.cpp:23-159 | both in sequence |
| Decimal.Print | pcg_extras.hpp:151-163 | the decimal notation of every number of 128 bits, within the buffer of 40 characters |
| Decimal.Read | pcg_extras.hpp:166-205 | for every input: the number of its digits modulo 2^128, or all ones when an overflow is flagged, or the old value when there is nothing to read; when the stream fails, and what is left of it |
| Decimal.ReadDigitsIs | pcg_extras.hpp:179-194 | for all digits: the value is their number modulo 2^128, and the flag is raised exactly when one of the numbers on the way is noticed |
| Decimal.FlaggedIffNoticed | pcg_extras.hpp:189-193 | in closed form for numbers below ten times 2^128: never when the number fits, else when its quotient and remainder by ten show the wrap |
| Decimal.ReadsNumberIff | pcg_extras.hpp:179-194 | digits are read as their number without a flag exactly when it fits |
| Decimal.PrintThenRead | pcg_extras.hpp:151-205 | every number is read back when something that is no digit follows |
| Decimal.UnseenOverflow | pcg_extras.hpp:190-193 | a number that is too large and read as another one without notice |

## Left out

- Sockets, TLS, timeouts, pipelining checks, logging, process flags and the addresses that make the server wait: input is a sequence of octets and output a list of reply codes.
- The checks of clients, senders and recipients (`verify_*`, SPF, block lists, spam status): each is an arbitrary verdict that a command carries; a MAIL or HELO that fails one exits, as the code does.
- Exceptions of the file system in `msg_new`, `msg_write` and `do_deliver_`: storage is assumed to succeed.
- The headers that the server adds are an arbitrary text; folders and file names are not modelled.
- DataTransfer.DataAct: the library that parses the input is not part of this model. How many octets of a line its buffer holds is a parameter, which follows from the flag for the size of the buffer; that a line of nothing but LF stays in the buffer, so that the line after it has one octet of room less, is not modelled.
- SmtpSession.RunDeliversRight: does not say that MAIL comes after HELO, because RSET opens the session in its first state too, nor that the flag for BODY=BINARYMIME is clear between transactions, because a refused MAIL may have set it (`RefusedMailSpoilsNext`).
- DataTransfer.DoData: the client looks at the last character of an empty line as if there were one; the model takes it to be no CR.
- BdatTransfer.BdatAct: the cut of the input is either the limit of the connection or any other reason; time-outs and input errors are one case.
- DataTransfer.DataEndToEnd: the number of octets that still come through is a parameter. It is less than the limit that the last reset has set, by the commands read since and by how the operating system cuts its reads, which are not modelled; so for `BdatTransfer.BdatEndToEnd`.
- BdatTransfer.DoBdat: what the server makes of the octets that are still under way after a transfer was cut is not followed.
- DataTransfer.ParseData: where a buffer smaller than the longest look ahead of a strict line gives out, somewhat fewer octets may have been taken than the model says.
- The enhanced status codes and the texts of replies; only the three digits are kept.
- DnsAnswer.CheckAnswer: the extended response code is not modelled, because its place is computed from a pointer that has already gone over the name.
- SmtpSession.Session.Lo: the identity is kept as the text that was given; its conversion to the ASCII form of international names is not modelled.
- DNS transport, retries and the search over name servers.
- The addresses that A and AAAA records are printed as, and the texts of RRSIG records.
- PcgEngine.Distance: where two states do not reach each other the loop would not end; the model demands the constants of the library, for which all states do.
- PcgEngine.LoopNeverEnds: is about the loop without its assertion, which ends the program in a debug build.
- Bounded.BoundedRand: draws are a given sequence; that an acceptable draw comes in the end is not proved.
- Output functions other than RXS-M-XS, the extended generators with their tables, and the input and output of whole generators.
- Reply.HashIsPure: the keyed hash is an arbitrary function of the secret and the lower-cased addresses to 32 octets, written in base 32; that it is hard to forge is not a statement about the code.
- Base32.RoundTrip: the codec is not part of the repository; its alphabet and bit order are modelled, the replacement of similar letters in decoding is not.
- Mailbox.Literal: the grammars of address literals are an arbitrary predicate on texts of printable characters in brackets.
- Reply.OldFormatReads: nothing encodes the old format any more, so that only its reading is modelled.
- Message.Parsed.ParseMessage: rules for the contents of single headers, signatures and their verification are not modelled.
- Base64.Dec: the test for letters and digits is that of the C locale.
- Decimal.Read: white space before the digits is taken to be skipped already; the hexadecimal output is not modelled.

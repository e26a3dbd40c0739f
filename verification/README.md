# Verified model of the server skeleton

A Dafny model of the parts of the server that carry real logic, with proofs about them:

- the Internet checksum of `Util/libc/socket.c`, with its fixed two-step carry fold (`InternetChecksum.dfy`);
- the form URL encoder and decoder of `Util/libc/code.c`, including sizing with a null destination and decoding in place (`UrlCodec.dfy`);
- sending and receiving everything over a stream socket, the HTTP request writer, the head reader and the chunk-size reader of `Util/libc/socket.c` (`Sockets.dfy`, `Scanning.dfy`, `HttpRequests.dfy`, `HttpResponses.dfy`);
- the prepared-statement handle of `Util/libc/db.c` (`StatementHandle.dfy`), the field table and the four operations of `Util/DBUtil.cpp` (`SqlText.dfy`, `SqlObjects.dfy`, `DbCalls.dfy`, `DbSessions.dfy`, `DbLifetimes.dfy`, `DbUtil.dfy`), and the user record of `User/User.cpp` (`Users.dfy`).

`Bytes.dfy`, `Options.dfy` and `Sequences.dfy` hold what the others share. `dafny verify dfyconfig.toml` checks the whole project.

## How the code is modelled

Code that works in place is a method over arrays or a class with mutable fields, proved against a specification function or stated outright; the laws are lemmas about those specifications.

- **Sockets.** A connection is a byte stream in each direction. `Send` and `Recv` move an arbitrary number of bytes up to what is asked, or fail; what is proved holds for every such choice. The constant `reliable` marks connections on which a call always moves at least one byte when there is one to move. Ghost traces record the result of every call. Bytes are modelled by the characters with the same codes, and a C string by its characters before the NUL.
- **`unsigned long`.** The checksum's accumulator wraps at 2^32 or 2^64; the number of values is a parameter.
- **The allocator and the MySQL client library.** Their answers (success or failure, result columns, rows) are parameters, so a theorem over all answers covers every behaviour. The library counts the `?` characters of a statement as its placeholders, copies as many parameter slots as it counts when they are bound, copies the slots of the result array bound last, and may or may not forget them when a new text is prepared. A failed close may or may not have freed the statement all the same.
- **`sscanf`.** `%d` reads white space, an optional sign and decimal digits; `%p` is assumed to read hexadecimal digits after white space. Where C leaves the result undefined (a number outside `int`, a head without a space) or the platform decides it (a sign, a `0x` prefix or `(nil)` before a `%p` number), the model returns an arbitrary value and claims nothing. A size line that fills the whole buffer leaves no NUL for `sscanf`, which is undefined in C as well; a parameter says whether the scan stops at the carriage return nevertheless, and without it the value is arbitrary.
- **Undefined calls.** `Callable` states what C demands of a call: an open (non-null) statement, an index inside the array, and usable slots where the library reads a parameter or writes a row. A slot is usable if its buffer is large enough for a type of fixed width, and not null unless its size is 0. A buffer is taken to have the size that is bound with it, a row to have a value in every column, and a `MYSQL_TIME` to take 40 bytes, as on 64-bit platforms. Following the end iterator of the field table is an operation that is never callable, so running a sequence of calls safely means that none of them is undefined.

## Results that differ from what one might expect

- The two-step fold is not the fold of RFC 1071 for every buffer. `InternetChecksum.ExactForLengthIff` gives the exact range: all buffers of a given length are summed correctly if and only if they have at most 65537 terms (32-bit accumulator) or 65538 terms (64-bit accumulator).
- A chunk size of nine or ten digits can be read only on the first size line; after a chunk, whose CRLF the reader absorbs, at most eight fit (`HttpResponses.SizeLineFitsIff`). Ten digits, or eight after a chunk, fill the buffer to the last byte and leave no NUL in it (`HttpResponses.CanScanIff`).
- An added header line that is empty ends the head early (`HttpRequests.RequestFramingIff`).
- An update without altered fields is not a statement that can be read back (`DbSessions.UpdateMeaning`).
- The four operations test neither keys, columns nor sizes. `DbSessions.CallIsSafeIff` gives the exact condition, computed from the call alone, under which every library call of an operation is defined: the parameters that it comes to execute with are usable, and a `get` that comes to bind its columns finds a field for each of them, and usable buffers if a row comes. `DbLifetimes.SessionIsSafeIff` carries it over sessions. Failing inputs are an unregistered key, for which `operator[]` binds a null buffer (`DbSessions.UnregisteredKeyIsUnsafe`), a column without a field, whose end iterator is followed (`DbSessions.StrayColumnIsUnsafe`), and a column that is wider than its field (`DbSessions.NarrowFieldIsUnsafe`). The user record never fails in the parameters of a registered key (`Users.SettersKeepOperationsSafe`).
- A close that fails and frees the statement all the same leaves a dangling pointer, which the next close frees again (`StatementHandle.SecondCloseFreesTwice`). Ownership holds throughout a run if and only if no close does that (`StatementHandle.OwnershipOverAllRuns`).
- Without exceptions nothing leaks, and one operation that throws on a clean handle leaks nothing either. A second operation after one that threw can: `DbLifetimes.ThrowThenReturnLeaks` shows two deletes that leak a parameter array, and `DbLifetimes.DestructorFreesAllIff` gives the exact condition for all sessions, computed from where each operation stopped with two flags and no heap.
- The bound flag can claim a binding that the library has lost, exactly when, while the flag is set, another statement is allocated, a close frees the statement, or a library that forgets the array prepares a new text (`StatementHandle.FlagStaysTrueIff`, over whole runs `StatementHandle.FlagTrueOverRunsIff`); `StatementHandle.FlagCanLie` is a run from a new handle that gets there. `DbSessions.FetchedIntoFields` shows that `get` never fetches in that state.

## Model

| member | source | states |
|---|---|---|
| InternetChecksum.CheckSum | Util/libc/socket.c:13-24 | the loop over words and the odd byte computes the code's checksum for both accumulator widths, and within the exact range that is the complement of the one's complement sum of RFC 1071 |
| InternetChecksum.DeferredCarries | Util/libc/socket.c:15-22 | adding first and folding until no carry remains equals one's complement addition with end-around carry |
| InternetChecksum.TwoFoldExactIff | Util/libc/socket.c:21-23 | over every sum of an int-sized buffer, two folds equal the full fold exactly when the second fold has no carry |
| InternetChecksum.FoldBoundIsTight | Util/libc/socket.c:21-23 | the fold is exact below 2^32 + 65535 and wrong at that sum |
| InternetChecksum.ExactForLengthIff | Util/libc/socket.c:13-24 | for each length, the code agrees with RFC 1071 on all buffers of that length if and only if they have at most 65537 or 65538 terms |
| InternetChecksum.ReceiverCheck | Util/libc/socket.c:13-24 | storing the checksum in a zeroed word at any even offset makes a second run return 0, odd lengths included |
| InternetChecksum.ByteOrderIndependence | Util/libc/socket.c:13-24 | swapping the bytes of every word swaps the bytes of the checksum |
| InternetChecksum.WordOrderIrrelevant | Util/libc/socket.c:15-18 | permuting whole words never changes the checksum |
| InternetChecksum.OneWordChangeIff | Util/libc/socket.c:15-23 | overwriting one word goes unnoticed exactly when it keeps its value or changes between 0x0000 and 0xFFFF beside a non-zero word |
| UrlCodec.UrlEncode | Util/libc/code.c:7-39 | the returned length is n plus twice the escaped bytes in both modes; the filling run writes the text and a NUL, every write stays inside that room, later bytes are unchanged |
| UrlCodec.PutEscape | Util/libc/code.c:30-34 | an escape writes three bytes and the NUL that sprintf leaves, inside the room of the whole text |
| UrlCodec.SizingIsExact | Util/libc/code.c:7-39 | the sizing formula is the length of the encoded text |
| UrlCodec.HexOrSentinel | Util/libc/code.c:54-70 | the character 0 is returned exactly for bytes that are no hexadecimal digit, and the value of the digit otherwise |
| UrlCodec.HexDigitTable | Util/libc/code.c:54-70 | a byte has the value v exactly if it is the v-th of 0123456789abcdef or of 0123456789ABCDEF |
| UrlCodec.EncodedByte | Util/libc/code.c:10-35 | letters and digits are written as themselves, a space as a plus sign, every other byte as a percent sign and its two upper-case digits |
| UrlCodec.DecodedEscape | Util/libc/code.c:52-76 | a percent sign and the two digits of a byte, each in either case, are decoded to that byte |
| UrlCodec.DecodedByte | Util/libc/code.c:45-82 | every other byte is decoded alone: a plus sign to a space, a percent sign without two digits to nothing, the rest to itself |
| UrlCodec.ReadEscape | Util/libc/code.c:53-76 | an escape is recognised exactly when two valid digits follow inside the text |
| UrlCodec.UrlDecode | Util/libc/code.c:41-88 | decoding to nothing, to a separate buffer or in place gives the same length and bytes, given room for the terminator |
| UrlCodec.RoundTripWithContinuation | Util/libc/code.c:7-88 | decoding an encoded prefix followed by any text gives the prefix back and goes on with that text |
| UrlCodec.RoundTrip | Util/libc/code.c:7-88 | decoding undoes encoding |
| UrlCodec.EncodeInjective | Util/libc/code.c:7-39 | different byte strings have different encodings |
| UrlCodec.CanonicalIffEncoded | Util/libc/code.c:10-38 | a text is an output of the encoder exactly when it splits into its tokens |
| UrlCodec.CanonicalIffFixed | Util/libc/code.c:10-87 | encoding undoes decoding on exactly those texts |
| Sockets.TcpSendAll | Util/libc/socket.c:339-350 | a positive result k means that exactly the first k bytes entered the stream in order, otherwise none did; on a reliable connection all n are sent; the return is the one that the loop prescribes for the recorded results of the very calls it made |
| Sockets.TcpRecvAll | Util/libc/socket.c:352-367 | a positive result k means that the next k bytes of the stream are in the buffer and nothing else changed, in the looping and the waiting build; the loop's return is the one prescribed for the recorded results of the very calls it made, and the waiting build makes one call |
| Sockets.InterleavingsAreConsistent | Util/libc/socket.c:339-367 | in every interleaving of a send-all and a receive-all loop, failing calls included, the received bytes and those on the way are the first wn bytes of the data, the rest of the buffer is untouched, and a return value is the count of its loop |
| Sockets.LoopsRunOnTheirOwn | Util/libc/socket.c:339-367 | in every interleaving each loop is called only as its own state allows, and ends as the results of its own calls prescribe |
| Sockets.ReturnsOfInterleaving | Util/libc/socket.c:339-367 | a loop of an interleaving has returned r if and only if r is what the contract of send-all or receive-all prescribes for the results of its own calls |
| Sockets.ReceivedIsPrefixOfSent | Util/libc/socket.c:339-367 | whatever the rounds are, the first rn bytes of the buffer are a prefix of the first wn bytes of the data, and both returns are those counts |
| Sockets.RunsAreShort | Util/libc/socket.c:339-367 | every interleaving has at most one call for each byte that is left to either loop and one failing call for each loop |
| Sockets.Delivery | Util/libc/socket.c:339-367 | when no call failed and neither loop can move another byte, the sender has returned n and the receiver has exactly the first min(m, n) bytes; it has returned m, or else its next call can only fail and then it returns n, or the failure if n is 0, with those bytes in the buffer |
| Scanning.ScanNumberIs | Util/libc/socket.c:694 | scanning yields the number that the longest digit prefix denotes |
| Scanning.PrintedNumber | Util/libc/socket.c:694 | a number printed with the digits of a table, lower or upper case, is read back |
| Scanning.DigitTable | Util/libc/socket.c:694 | the digits of each base are exactly those of 0123456789, 0123456789abcdef and 0123456789ABCDEF, with their positions as values |
| Scanning.SpaceTable | Util/libc/socket.c:664 | white space is exactly the six characters of codes 9 to 13 and 32 |
| Scanning.ScanDecimalIs | Util/libc/socket.c:664 | behind white space and an optional sign exactly the digits are read, with the sign, and without a digit nothing is |
| HttpRequests.HttpOpenRequest | Util/libc/socket.c:621-631 | rejects other methods without sending, whatever the path is; success means that exactly the text of the request line and the three fixed headers was sent, word for word, failure that only a proper prefix was |
| HttpRequests.HttpSetRequestHeader | Util/libc/socket.c:633-637 | success means exactly the header text was sent, nothing for a null header |
| HttpRequests.HttpSendRequest | Util/libc/socket.c:639-647 | success means the blank line and the first n data bytes were sent, failure that only a proper prefix was |
| HttpRequests.FirstBlankAfterLines | Util/libc/socket.c:626-641 | after non-empty lines the first CRLFCRLF is the one that the closing CRLF completes |
| HttpRequests.RequestFramingIff | Util/libc/socket.c:621-647 | the first CRLFCRLF of a request ends where its body starts if and only if no added line is empty |
| HttpRequests.RequestRead | Util/libc/socket.c:621-647 | for a path without a space, a reader of requests finds the method, the path, the version HTTP/1.1, the three own headers, the added lines in order, and the body |
| HttpRequests.OwnHeaders | Util/libc/socket.c:626-629 | looking up Host gives the host, Accept */*, Connection Keep-Alive, and the other lines are the added ones |
| HttpRequests.SendWholeRequest | Util/libc/socket.c:621-647 | any sequence of open, header calls and send that succeeds sends exactly such a request, which is read back to its parts |
| HttpResponses.HttpRecvResponse | Util/libc/socket.c:649-670 | reads up to and including the first CRLFCRLF and no further, leaves those bytes NUL-padded in the buffer, and reports the status; otherwise reports -1 after at most bufsize - 1 bytes |
| HttpResponses.StatusLine | Util/libc/socket.c:660-664 | for any version without a space, the reported status is exactly the signed number behind the first space and further white space, and -1 if there is none |
| HttpResponses.PrintedStatus | Util/libc/socket.c:660-664 | a printed status code is reported as it is |
| HttpResponses.RecvRequestHead | Util/libc/socket.c:639-670 | the head reader consumes the head that the writer sent and no byte of the body |
| HttpResponses.HttpRecvChunkSize | Util/libc/socket.c:686-700 | succeeds exactly when it stops at the first CRLF that is not at the very start, consumes nothing past it, and leaves the caller's size alone on failure; the size is that of the line whenever the buffer holds a NUL or the scan stops without one |
| HttpResponses.SizeLineEnd | Util/libc/socket.c:692 | a size line ends at its own CRLF even behind the previous chunk's CRLF |
| HttpResponses.SizeLineValue | Util/libc/socket.c:693-694 | the size read is the number that the leading hexadecimal digits denote, whatever follows them on the line |
| HttpResponses.LineWithoutSize | Util/libc/socket.c:693-694 | a line that does not start with a digit, behind white space, denotes 0 |
| HttpResponses.SizeLineFitsIff | Util/libc/socket.c:687-692 | a size line can be read exactly when it has at most ten digits, or eight behind a CRLF |
| HttpResponses.CanScanIff | Util/libc/socket.c:687-694 | once a size line is in the twelve-byte buffer, the buffer holds a NUL for sscanf exactly when the line has at most nine digits, or seven behind a CRLF |
| HttpResponses.EverySizeHasText | Util/libc/socket.c:686-700 | every size below 2^31 has a text of at most eight digits in lower and in upper case |
| HttpResponses.RecvChunkedBody | Util/libc/socket.c:686-700 | alternating the size reader with receive-all rebuilds exactly the chunks' contents in order, stops at the zero chunk, and leaves what follows it unread, for all sizes whose lines leave a NUL, or for all if the scan stops without one |
| StatementHandle.TypeTable | Util/libc/db.c:16-29 | each field type has the library type of the table |
| StatementHandle.UsableIff | Util/libc/db.c:259-408 | a slot is usable exactly if its buffer has room for its type: 1, 2, 4, 8 or 40 bytes, or else whatever size is bound |
| StatementHandle.DbHandle.SQLAllocStmt | Util/libc/db.c:189-202 | the new handle, heap and library state and the result are those of the state machine |
| StatementHandle.DbHandle.SQLCloseStmt | Util/libc/db.c:204-220 | as above: the parameter array is given up in any case, the statement pointer is cleared only by a success, and a failure may or may not have freed the statement |
| StatementHandle.DbHandle.SQLPrepare | Util/libc/db.c:222-243 | as above: a zeroed array with one slot per placeholder, none for a text without |
| StatementHandle.DbHandle.SQLBindParam | Util/libc/db.c:259-274 | as above: one slot of the parameter array gets the buffer, its size and the library's type |
| StatementHandle.DbHandle.SQLExecute | Util/libc/db.c:276-295 | as above: the array survives a failure and is freed by a success |
| StatementHandle.DbHandle.LoadResultFieldMetaData | Util/libc/db.c:329-350 | as above: array and metadata for the columns, the flag cleared |
| StatementHandle.DbHandle.BindResultFieldBuffer | Util/libc/db.c:392-408 | as above: one slot of the result array gets the buffer and the column's type |
| StatementHandle.DbHandle.GetFirstResult | Util/libc/db.c:410-422 | as above: nothing changes |
| StatementHandle.DbHandle.GetNextResult | Util/libc/db.c:424-442 | as above: result pointers and flag are cleared without freeing |
| StatementHandle.DbHandle.SQLFreeResult | Util/libc/db.c:444-465 | as above: metadata and result array freed, the flag cleared with the array |
| StatementHandle.DbHandle.FetchResult | Util/libc/db.c:467-488 | as above: the result array is bound once, then fetched into |
| StatementHandle.StepKeepsBase | Util/libc/db.c:189-488 | every call keeps the owned arrays and metadata live and of their kinds, the parameter array as long as the placeholders, and the flag only with a result array |
| StatementHandle.StepKeepsInvIff | Util/libc/db.c:189-488 | a call keeps ownership, with the open statement live and nothing freed badly, exactly when it is not a close that fails and frees the statement |
| StatementHandle.OwnershipOverAllRuns | Util/libc/db.c:189-488 | ownership holds in every state of a run, failing calls included, if and only if no close of the run fails and frees the statement |
| StatementHandle.SecondCloseFreesTwice | Util/libc/db.c:204-220 | after such a close, another one frees the statement a second time |
| StatementHandle.StepLeaksIff | Util/libc/db.c:189-488 | a call leaks exactly when it overwrites an owned pointer, and leaks are never recovered |
| StatementHandle.RunLeaksIff | Util/libc/db.c:189-488 | a run leaks exactly when one of its calls does |
| StatementHandle.DestructorFreesOwned | Util/DBUtil.cpp:38-42 | the destructor's two calls free exactly what is owned, except a statement that a failing close keeps, and free nothing twice |
| StatementHandle.FlagStaysTrueIff | Util/libc/db.c:189-488 | from a truthful state the bound flag stays truthful exactly unless the statement is replaced, freed or prepared by a forgetting library while it is set |
| StatementHandle.FlagTrueOverRunsIff | Util/libc/db.c:189-488 | the flag is truthful in every state of a run if and only if no call of the run is such a one |
| StatementHandle.EndOfTrueRun | Util/libc/db.c:189-488 | at the end of such a run a set flag means that the library is bound to the current result array |
| StatementHandle.FlagCanLie | Util/libc/db.c:189-488 | from a new handle, executing any statement without placeholders, fetching its result and preparing another one reaches a set flag for a binding that the library has lost |
| SqlObjects.BeforeIff | Util/DBUtil.cpp:20 | the key order decides at the first difference, and a proper prefix comes first |
| SqlObjects.PutKeepsOrder | Util/DBUtil.cpp:18-21 | assigning to a key keeps the table in key order |
| SqlObjects.PutIsMapUpdate | Util/DBUtil.cpp:18-24 | assigning to a key is a map update |
| SqlObjects.SqlObject.SetSQLFields | Util/DBUtil.cpp:18-21 | the field is registered as not altered and no other field changes |
| SqlObjects.SqlObject.At | Util/DBUtil.cpp:158 | the key's attribute, inserting the default one for a missing key |
| SqlObjects.SqlObject.SetAlterFlag | Util/DBUtil.cpp:22-24 | as a map update, the field is marked, inserted with default attributes if missing, and no other field changes |
| SqlObjects.FlagAddsName | Util/DBUtil.cpp:22-24 | marking adds one name to the altered ones and changes no registration |
| SqlText.InsertPlaceholdersIff | Util/DBUtil.cpp:102-116 | one placeholder per name if and only if no name and no table name contains one |
| SqlText.UpdatePlaceholdersIff | Util/DBUtil.cpp:135-146 | one placeholder per name and one for the key if and only if no part contains one |
| SqlText.StatementTexts | Util/DBUtil.cpp:62-170 | the four statements word for word, for one and for two names |
| SqlText.InsertRead | Util/DBUtil.cpp:102-116 | reading a built insert gives its table and its names in order |
| SqlText.UpdateRead | Util/DBUtil.cpp:135-146 | a built update can be read back exactly when it assigns something, and then to its parts |
| SqlText.KeyedRead | Util/DBUtil.cpp:167-170 | reading a built delete or select gives its table and key |
| DbCalls.EnoughPlaceholders | Util/DBUtil.cpp:58-179 | no operation binds more slots than its text has placeholders, whatever the names are |
| DbCalls.WrittenSlots | Util/libc/db.c:264-268 | binding in index order replaces exactly those slots |
| DbCalls.AttemptLeaksIff | Util/DBUtil.cpp:58-179 | calls stopped at the first error leak exactly when a call that was made overwrites |
| DbCalls.FieldOpsAttemptableIff | Util/DBUtil.cpp:81-85 | the loop over the result columns can be carried out exactly when every column has a field |
| DbSessions.BoundIsCallableIff | Util/DBUtil.cpp:58-179 | after binding, executing is defined exactly when the slots bound by the operation are usable, those of surplus placeholders being harmless |
| DbSessions.ResultAttemptableIff | Util/DBUtil.cpp:73-95 | once executed, get makes only defined calls exactly when, if it comes to bind its columns, each has a field and a row that comes finds usable buffers |
| DbSessions.ReachesColumnsIff | Util/DBUtil.cpp:66-76 | the condition on the answers under which get comes to bind its columns says exactly that all its earlier calls succeed |
| DbSessions.CallIsSafeIff | Util/DBUtil.cpp:58-179 | in every state that earlier operations can leave, an operation makes only defined calls, with every index inside its array and every slot that the library uses usable, if and only if the condition on the call holds |
| DbSessions.CallIsSafe | Util/DBUtil.cpp:58-179 | such an operation ends as its stages say and keeps ownership, whether it returns or throws |
| DbSessions.UnregisteredKeyIsUnsafe | Util/DBUtil.cpp:58-179 | with an unregistered key an update, remove or get makes only defined calls exactly when it does not come to execute |
| DbSessions.StrayColumnIsUnsafe | Util/DBUtil.cpp:81-83 | with its parameters in order, a select whose result has a column without a field follows the end iterator |
| DbSessions.NarrowFieldIsUnsafe | Util/libc/db.c:397-400 | with its parameters and columns in order, a select writes an eight-byte value into a registered one-byte field |
| DbSessions.ReturnsIff | Util/DBUtil.cpp:58-179 | the exact answers of the library under which an operation returns and does not throw |
| DbSessions.ReturnsOnlyIfRegistered | Util/DBUtil.cpp:58-179 | an update, remove or get returns only if its key is registered |
| DbSessions.SearchedValue | Util/DBUtil.cpp:68-69 | for any names, the parameter that selects the row is the value passed to get, or the buffer of the field of the key for update and remove, with that field's size and type |
| DbSessions.ExecutedEffect | Util/DBUtil.cpp:58-179 | a successful execution sends the operation's own text and slots and gives up the parameter array |
| DbSessions.CallSends | Util/DBUtil.cpp:58-179 | an operation that returns has sent exactly one statement, its own |
| DbSessions.PositionalAgreementIff | Util/DBUtil.cpp:99-163 | each placeholder gets the slot bound for it if and only if table, key and altered names contain no placeholder |
| DbSessions.InsertMeaning | Util/DBUtil.cpp:99-130 | read back, an insert names its table and exactly the altered fields, with each parameter the buffer, size and type of the field of its name |
| DbSessions.UpdateMeaning | Util/DBUtil.cpp:132-163 | the same for an update with at least one altered field, with the buffer of the key's field as the last parameter |
| DbSessions.KeyedMeaning | Util/DBUtil.cpp:165-179 | a remove or get names its table and key, and its only parameter is the buffer of the key's field or, for get, the value passed, with the field's size and type |
| DbSessions.FetchedIntoFields | Util/DBUtil.cpp:73-92 | when get fetches, the library is bound to the array just loaded, and the slots that it has copied send each column to the buffer of the field with its name |
| DbSessions.GetFillsFields | Util/DBUtil.cpp:73-96 | a get that returns has had the library write each column to the buffer of the field of its name, with that field's size and the column's type |
| DbLifetimes.SessionIsSafeIff | Util/DBUtil.cpp:58-179 | a session, throwing operations included, makes only defined calls if and only if each of its operations is safe |
| DbLifetimes.CallStaysClean | Util/DBUtil.cpp:58-179 | a safe operation that returns leaves nothing pending |
| DbLifetimes.CallLeaksIff | Util/DBUtil.cpp:58-179 | a safe operation, returning or throwing, leaks exactly when it overwrites something that an earlier one left behind |
| DbLifetimes.SuccessfulSessionsAreClean | Util/DBUtil.cpp:38-179 | after any session of returning operations nothing is pending and the destructor leaves no allocation, or only the statement that a failing close keeps |
| DbLifetimes.SessionLeaksIff | Util/DBUtil.cpp:58-179 | a session leaks exactly when one of its operations does |
| DbLifetimes.CallLosesIff | Util/DBUtil.cpp:58-179 | two flags, computed from where each operation stopped, tell which arrays are pending and whether the next operation overwrites one |
| DbLifetimes.SessionLosesIff | Util/DBUtil.cpp:58-179 | the flags decide over a whole session whether anything pending was overwritten |
| DbLifetimes.DestructorFreesAllIff | Util/DBUtil.cpp:38-42 | over all sessions of safe operations the destructor frees everything if and only if its close does not keep the statement and, by the two flags, nothing pending was overwritten |
| DbLifetimes.FirstThrowLeaksNothing | Util/DBUtil.cpp:58-179 | one operation on a clean handle leaks nothing even if it throws |
| DbLifetimes.ThrowThenReturnLeaks | Util/DBUtil.cpp:165-179 | a delete that fails to execute followed by one that succeeds leaks |
| DbUtil.DBUtil.Create | Util/DBUtil.cpp:27-36 | an object results exactly when the connection, its set-up, the commit mode and the statement all succeed, and then with a clean handle; a constructor that throws leaves no allocation of the statement handle |
| DbUtil.DBUtil.Destructor | Util/DBUtil.cpp:38-42 | what stays allocated is exactly what had leaked and a statement that a failing close keeps; nothing is freed twice |
| DbUtil.DBUtil.Get | Util/DBUtil.cpp:58-97 | the handle ends as specified, whether it returns or throws; if it returns, the last statement sent selects by the value passed, each column was bound to the field of its name, and a row is reported exactly when one was fetched; it requires exactly the safety condition |
| DbUtil.DBUtil.Insert | Util/DBUtil.cpp:99-130 | the handle ends as specified, and a returning insert has sent its own statement; it requires exactly the safety condition |
| DbUtil.DBUtil.Update | Util/DBUtil.cpp:132-163 | the same for update, with the key looked up after preparing |
| DbUtil.DBUtil.Remove | Util/DBUtil.cpp:165-179 | the same for remove, whose last statement sent deletes by the buffer of the key's field |
| DbUtil.DBUtil.BindAltered | Util/DBUtil.cpp:151-157 | the loop writes the altered fields' slots in table order and ends with their number |
| DbUtil.DBUtil.BindColumns | Util/DBUtil.cpp:81-85 | the loop binds every column to the buffer of the field found for its name |
| DbUtil.DBUtil.FetchRow | Util/DBUtil.cpp:87-96 | the fetch, the error check and the freeing end as specified, and a row is reported exactly when one was fetched |
| Users.User.constructor | User/User.cpp:11-18 | exactly the six fields are registered, none altered |
| Users.User.TextColumns | User/User.cpp:12-15 | the buffer registered under each text column is the member of that name, with its size |
| Users.User.ColumnTypes | User/User.cpp:12-17 | the buffers of login_time and id and their sizes, and the library types of all columns |
| Users.User.StatementStores | User/User.cpp:11-73 | an insert or update of the record sends, for each altered name, a buffer whose content is what is stored under that name |
| Users.User.SetUserId | User/User.cpp:24-30 | setting another text stores it NUL-padded and marks the field, so that it and nothing else changes in what an insert stores; setting the buffer to itself does nothing |
| Users.User.SetPassword | User/User.cpp:35-41 | the same for the password |
| Users.User.SetUserName | User/User.cpp:46-52 | the same for the user name |
| Users.User.SetSessionId | User/User.cpp:57-63 | the same for the session id |
| Users.User.SetLoginTime | User/User.cpp:68-73 | the time is stored, and marked unless it is the record's own, so that it and nothing else changes in what an insert stores |
| Users.ReplaceText | User/User.cpp:26-27 | clearing and copying leaves exactly the C string followed by NULs |
| Users.SettersDecideStatement | User/User.cpp:11-73 | after any run of setters, exactly the fields that were set are assigned, from their registered buffers |
| Users.SettersKeepOperationsSafe | User/User.cpp:11-73 | after any run of setters an insert of the record is safe, and an update or remove exactly if its key is registered or it does not come to execute |

## Left out

- Raw socket set-up and options, address conversion, connect, poll, select and multicast: calls into the operating system with little logic.
- Database connection, commit, rollback and autocommit, the inserted identifier, affected rows, and the getters of the handle and of the user record: single calls or field reads.
- `sock_HttpGetContentLength` and the multipart header builders: the first reads a decimal header through the platform's pointer format, the others only concatenate.
- Threads, processes, files and statistics (`Util/libc/ipc.c`, `process.c`, `io.c`, `statistics.c`), `main.cpp` and `activity.cpp`: wrappers, or easy members only.
- Lengths and counters are unbounded: byte counts are assumed to fit an `int`, a `size_t` does not wrap, and an opened request fits its 2048-byte buffer (that bound is a precondition).
- Partial overlap of source and destination in the codec: destinations are absent, separate, or, for the decoder, the source itself.
- Addresses are never reused by the modelled allocator.
- The placeholders that the MySQL server would not count, such as a question mark inside a quoted string: every `?` counts.
- DbUtil.DBUtil.Get: requires the exact condition of `DbSessions.CallIsSafeIff`, as do insert, update and remove; what C and C++ do in an undefined call is not modelled.
- The lifetimes of the buffers that callers register or pass, whether two of them overlap, and buffers whose size is not the one bound with them.
- DbUtil.DBUtil.Destructor: leaves out closing the connection, as connections are not modelled.
- HttpResponses.RecvChunkedBody: its sizes have at most eight digits, as longer ones cannot be read behind a CRLF; promises nothing for a size line that fills the buffer unless the scan stops at its carriage return.
- Users.User.SetUserId: requires a text shorter than its buffer, unless it is the buffer itself, as the unchecked copy demands; the same holds for the other text setters.
- In DBUtil the branches for an error from binding are missing: the bind functions have no failing path for MySQL handles.

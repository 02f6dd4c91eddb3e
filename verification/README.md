# A small web server and its CGI programs, modelled and verified

The repository is an HTTP server in C with two CGI programs behind it. This project models the
parts of it that compute something and proves what they compute, or, where they do not compute what
they are meant to, exactly when they do.

- **The calculator** (`cgi_bin/math_cgi.c`) works on signed decimal numerals of any length, in place
  on character buffers. `Decimal.dfy` says what texts and digits are worth. `Arithmetic.dfy` has ADD,
  SUB and MUL as loops over arrays, `Division.dfy` has IsLeftStrBig, SubLoop and DIV,
  `Numerals.dfy` has ExtractData and AdjustmentData, `Calculator.dfy` has handle_data.
  `LongDivision.dfy` describes on numbers the machine that DIV is and finds out when it divides,
  `Quotients.dfy` when at least its quotient is right; `Form.dfy` and `EndToEnd.dfy` lead from the
  query a form sends to the equation on the page.
- **The server** (`httpd.c`): `Lines.dfy` and `LineLaws.dfy` (get_line), `Requests.dfy` and
  `PostLaws.dfy` (GetContentLength, clear_head and the forwarding of a POST body to the CGI pipe),
  `RequestLine.dfy` (the request line split in place), `Serving.dfy` (accept_request from the first
  byte of a request to the last), `EventLoop.dfy` and `Runs.dfy`
  (epoll_server).
- **The database form** (`cgi_bin/MySql/main_mysql.cpp`): `FormSplit.dfy`. What both splitters of
  query strings share is in `Fields.dfy`.
- **skip_trailing_space** and the byte order functions below it, from the MySQL client headers:
  `TrailingSpace.dfy`.

Buffers are arrays of their cells, the end of an array acting as the terminating NUL; a `char *` into
a buffer is a place in it, or the literal "0" (`Numerals.Ptr`). Strings that a function only reads
(`const char *`) are values. A socket is a byte sequence and a cursor; the pipe is a growing
sequence; the answers of accept, epoll_ctl ADD, malloc, stat and of the error page are parameters
(`EventLoop.World`).

## What was found

**Division.** DIV slides a window over the dividend and subtracts the divisor while the window counts
as big, that is, when it is longer than the divisor, or as long and not smaller. After a remainder
of zero the next digits fill an empty window from the left, zeros included, since the code that would
skip them is commented out (`cgi_bin/math_cgi.c:285-290`). A window that starts with zero can so grow
longer than a divisor it is smaller than. It then stalls: SubLoop subtracts with borrows from the
leading cell, a byte, until that cell has gone from '0' all the way round to '0' again, so 256 units
of that place too many are divided. Arithmetic on `char` is therefore written modulo 256
(`LongDivision.ByteAdd`); whether `char` is signed does not matter, because the leading cell is only
decremented and compared for equality. The result:

- A window stalls exactly when, for some k, the first k digits are divisible by the divisor, the next
  digit is '0', and the next size2+1 digits exist and are worth less than the divisor
  (`LongDivision.StallsIffStarved`).
- DIV delivers quotient and remainder exactly when that never happens, **or** the divisor divides
  10^size2, because 256 units are then a whole number of divisors and a multiple of 256 rounds, which
  the result byte forgets (`LongDivision.ExactIff`). So 500 / 5 is right and 700 / 7 is "10" followed
  by the byte 157 (`LongDivision.SevenHundred`). A dividend without zero digits is always divided
  exactly.
- The quotient alone can come out right while the remainder does not: 9970000 / 997 stalls for
  exactly 256 rounds (`LongDivision.RightByWrapping`). Only one window may stall then, and with n
  digits behind it the excess of 256 * 10^n * 10^size2 must be close to a multiple of
  256 * 10^n * divisor: the residue of the excess plus the remainder has to be below the divisor
  (`Quotients.Absorbed`). This is exact (`Quotients.QuotientIff`), and it is exactly when the page
  shows the truncated quotient (`EndToEnd.DivAnswered`): cells that are no digits, or a NUL among
  them that ends the text early, never print as the quotient.

**Subtraction.** With equal signs and |a| < |b|, SUB puts b's sign on the distance
(`cgi_bin/math_cgi.c:105`), so b - a is printed. It is right exactly when the signs differ or
|a| >= |b| (`EndToEnd.SubRightIff`). Adding b and then subtracting it leads back exactly under the
condition `EndToEnd.Undone`.

**Division by zero.** DIV returns NULL, and the caller hands it to AdjustmentData, which dereferences
it, before echo_result could print its complaint: that page is unreachable
(`EndToEnd.ZeroDivisorAnswered`). An unknown operator ends the same way, and nothing else does
(`EndToEnd.NoResultAnswered`).

**Parameters.** The calculator's split loop stops before the last character, so an empty third value
goes unnoticed and its pointer is used uninitialised (`Form.SplitMissesEmptyThird`).

**get_line.** A comment says that a CR without LF is stored; the code stores the byte it has peeked at
instead, and then that byte again. A line that does not fit loses one byte. `LineLaws.LineExact` says
exactly when a call returns its line, and `LineLaws.LinesConcatenate` exactly when nothing is lost over
a whole stream, which is a little more often: the byte lost may be the CR of a CRLF.

**clear_head** recognises the blank line by a buffer of 1024 cells holding just LF. A longer header
line is read in parts, and if its length is 0 or -1 modulo 1024 the last part looks like the blank
line: `PostLaws.ClearHeadIff`. A POST body is delivered exactly when
no header behind Content-Length has such a length (`PostLaws.PostDelivered`).

**The database form.** A comment speaks of a missing age; what the code fills in is the missing "sex"
field, recognised by the first letter of the next key.

**AdjustmentData** applied twice does the same as once exactly for texts that satisfy
`Numerals.Settled`, which all numerals do; "0+5" becomes "+5" and then "5".

## Model

| member | source | states |
|---|---|---|
| Decimal.LengthThenStrCmp | cgi_bin/math_cgi.c:98 | on canonical numerals, shorter or as long and smaller for strcmp is the same as smaller in value |
| Decimal.StrCmpNumeric | cgi_bin/math_cgi.c:203 | digit strings of one length are in the order of strcmp exactly as in that of their values |
| Decimal.ZeroCells | cgi_bin/math_cgi.c:159-163 | a buffer of zeros of the wanted length |
| Arithmetic.Add | cgi_bin/math_cgi.c:59-90 | for any lengths in either order every cell is defined: the first sign, then the sum padded to one digit more than the longer operand |
| Arithmetic.BalancedStep | cgi_bin/math_cgi.c:79-84 | a column of ADD or SUB keeps the account: cells written plus carry or borrow are worth the low columns of the operands |
| Arithmetic.Sub | cgi_bin/math_cgi.c:93-133 | the cells are the distance of the operands; the sign is the first one exactly when the first operand is not smaller |
| Arithmetic.SubEnd | cgi_bin/math_cgi.c:115-130 | no borrow is left at the top and the cells are the difference |
| Arithmetic.AddRow | cgi_bin/math_cgi.c:175-194 | one row adds digit times data1 at its offset; all cells stay digits, the carry falls on a cell still '0', the sign cell is not written |
| Arithmetic.RowStep | cgi_bin/math_cgi.c:186-190 | the invariant of a row across one cell and its carry |
| Arithmetic.RowDone | cgi_bin/math_cgi.c:193-194 | the final carry on a zero cell completes the row and leaves the cells above it zero |
| Arithmetic.ProductStep | cgi_bin/math_cgi.c:173-195 | rows for the low j digits of data2 make data1 * (data2 mod 10^j), and one more row goes on to j + 1 |
| Arithmetic.AddRows | cgi_bin/math_cgi.c:171-195 | all rows together make the product, digits only, the sign cell as before |
| Arithmetic.MulDigits | cgi_bin/math_cgi.c:157-197 | sign cell and product in exactly size1 + size2 digits |
| Arithmetic.Mul | cgi_bin/math_cgi.c:136-198 | "0" when an operand is "0"; otherwise sign and product, for operands of any lengths in either order |
| Division.IsLeftStrBig | cgi_bin/math_cgi.c:201-207 | 0 exactly when the window is longer than the divisor or its value is not smaller |
| Division.SubtractCell | cgi_bin/math_cgi.c:222-228 | one inner step, on a cell that may stand just below '0' |
| Division.RoundStep | cgi_bin/math_cgi.c:220-231 | an inner step keeps the difference so far and its borrow; at the first cell of a window as long as the divisor no borrow is taken |
| Division.SubtractOnce | cgi_bin/math_cgi.c:218-231 | a round takes the divisor off the low cells, borrowing at most once from the cell above; nothing else changes |
| Division.SkipZeros | cgi_bin/math_cgi.c:233-237 | the window start moves over zeros only, up to the first other cell or the end |
| Division.NextRound | cgi_bin/math_cgi.c:213-240 | a round and the stripping after it take exactly the divisor off what the window is worth, leading byte included |
| Division.SubLoop | cgi_bin/math_cgi.c:210-242 | returns '0' plus the number of rounds, leaves what repeated subtraction leaves, as digits, and nothing outside the window changes; it terminates |
| Division.DivideWindow | cgi_bin/math_cgi.c:292-312 | one step of DIV: the next quotient cell is written and the reduced window is left |
| Division.DivideAll | cgi_bin/math_cgi.c:281-316 | the cells are the quotient cells of the whole dividend and the window ends as the last one |
| Division.Div | cgi_bin/math_cgi.c:245-321 | nothing for a zero divisor, "0" for a smaller dividend, else sign and quotient cells; NULL exactly for the divisor "0" |
| LongDivision.ByteAdd | cgi_bin/math_cgi.c:224-228 | char arithmetic is congruent modulo 256 |
| LongDivision.RoundsAreDivision | cgi_bin/math_cgi.c:213-240 | repeated subtraction counts the quotient and leaves the remainder |
| LongDivision.NoSlip | cgi_bin/math_cgi.c:210-242 | a window that is not stalled gives one digit and the right rest |
| LongDivision.StallSlip | cgi_bin/math_cgi.c:203-240 | whatever its cell is, a stalled window puts the account off by 256 times less than 10^size2: 256 * (10^size2 - turns * divisor) |
| LongDivision.SlipAtStall | cgi_bin/math_cgi.c:203-240 | a stalled window is harmless exactly when the divisor divides 10^size2, and its cell is then '0' |
| LongDivision.WindowBounds | cgi_bin/math_cgi.c:305-312 | between steps the window is below the divisor and not longer than it |
| LongDivision.ErrorIs | cgi_bin/math_cgi.c:283-316 | the slips of the windows add up to quotient * b + rest - dividend |
| LongDivision.ErrorStays | cgi_bin/math_cgi.c:283-316 | after a stall that is not harmless, whether cells are digits or not, the account stays off by at least 256, and by 256 * 10^length while the window starts with zero |
| LongDivision.StallsIffStarved | cgi_bin/math_cgi.c:285-303 | some window stalls exactly when the condition on dividend and divisor fails |
| LongDivision.ExactIff | cgi_bin/math_cgi.c:245-321 | quotient and remainder are right if and only if no window is starved or the divisor divides 10^size2 |
| LongDivision.NoZeroDigitsExact | cgi_bin/math_cgi.c:245-321 | dividends without zero digits are always divided exactly |
| LongDivision.SevenHundred | cgi_bin/math_cgi.c:285-302 | 700 / 7 gives "10" and the byte 157 |
| LongDivision.RightByWrapping | cgi_bin/math_cgi.c:302 | 9970000 / 997 gives the right cells and leaves 768 |
| Quotients.FirstStallPlace | cgi_bin/math_cgi.c:285-303 | the first starved place k gives the first stall, when digit k + size2 + 1 is read |
| Quotients.OneStall | cgi_bin/math_cgi.c:283-316 | when the quotient is right no window stalls after the first that does |
| Quotients.QuotientIff | cgi_bin/math_cgi.c:245-321 | the cells are the digits of the quotient if and only if no window is starved, or the divisor divides 10^size2, or the excess of the first stall is absorbed |
| Quotients.CutTooShort | cgi_bin/math_cgi.c:302 | digits in front of a cell that is none are worth less than the quotient |
| Numerals.ExtractData | cgi_bin/math_cgi.c:29-56 | sign, place of the significant digits, and the buffer cut at the first junk character |
| Numerals.Parses | cgi_bin/math_cgi.c:29-56 | the digits returned are the canonical text of the magnitude, whatever junk follows; the cut text stands for the same number |
| Numerals.IllegalOperand | cgi_bin/math_cgi.c:35-53 | a text that starts with neither sign nor digit counts as "0", with its first byte as the sign, and is not cut |
| Numerals.AdjustmentData | cgi_bin/math_cgi.c:323-343 | the place returned and the one cell that may be overwritten |
| Numerals.AdjustedReads | cgi_bin/math_cgi.c:323-343 | the place returned holds the text without superfluous zeros and plus |
| Numerals.PrintsNumeral | cgi_bin/math_cgi.c:323-343 | a numeral is printed canonically with its signed value, zero without a sign |
| Numerals.SignedTextIsNumeral | cgi_bin/math_cgi.c:29-56 | what is printed for a number is read back as that number |
| Numerals.AdjustedTwiceIff | cgi_bin/math_cgi.c:323-343 | a second AdjustmentData changes nothing if and only if the rest behind the zeros does not start like another numeral |
| Numerals.AdjustedTwice | cgi_bin/math_cgi.c:323-343 | AdjustmentData is idempotent on numerals |
| Calculator.SplitParams | cgi_bin/math_cgi.c:352-366 | a mark behind every '=' and NUL for every '&', of all characters but the last |
| Calculator.Dispatch | cgi_bin/math_cgi.c:379-414 | which operation runs for which operator and signs, and its result buffer |
| Calculator.OperandsCanonical | cgi_bin/math_cgi.c:372-377 | cutting the second operand leaves the first one's digits canonical |
| Calculator.Reply | cgi_bin/math_cgi.c:372-419 | the answer to three parameters, step by step on the shared buffer |
| Calculator.HandleData | cgi_bin/math_cgi.c:346-423 | handle_data is the function Respond of the query |
| Calculator.EarlyOutcomes | cgi_bin/math_cgi.c:348-366 | nothing is printed exactly for the empty query, and the parameters are incomplete or too many exactly when the query has not three '=' before its last character |
| Form.SplitRecovers | cgi_bin/math_cgi.c:352-377 | three values free of separators come back exactly as sent for any keys, when the third is not empty |
| Form.SplitMissesEmptyThird | cgi_bin/math_cgi.c:353-366 | with an empty third value a parameter is missing |
| Form.QueryAnswered | cgi_bin/math_cgi.c:346-423 | the page depends on the three values alone, in spite of the shared buffer |
| EndToEnd.AddAnswered | cgi_bin/math_cgi.c:382-390 | 'a' prints the canonical text of a + b, for all numerals with signs, zeros and junk behind |
| EndToEnd.SubAnswered | cgi_bin/math_cgi.c:391-399 | 's' prints a - b, or b - a when the signs agree and the first magnitude is smaller |
| EndToEnd.SubRightIff | cgi_bin/math_cgi.c:98-108 | 's' is right exactly when the signs differ or the first magnitude is not smaller |
| EndToEnd.MulAnswered | cgi_bin/math_cgi.c:400-405 | 'm' prints the canonical text of a * b |
| EndToEnd.DivPrintedIff | cgi_bin/math_cgi.c:323-419 | what is printed of the cells is the signed quotient if and only if the cells are the quotient |
| EndToEnd.DivAnswered | cgi_bin/math_cgi.c:406-419 | 'd' prints a / b truncated toward zero if and only if a is the smaller magnitude or the condition of QuotientIff holds |
| EndToEnd.SevenHundredShown | cgi_bin/math_cgi.c:406-419 | the page for 700 / 7 shows 10 and the byte 157 |
| EndToEnd.NoResultAnswered | cgi_bin/math_cgi.c:379-419 | NULL is dereferenced exactly for an unknown operator or a division by zero |
| EndToEnd.ZeroDivisorAnswered | cgi_bin/math_cgi.c:16-19 | the page that complains about a zero divisor is never shown, for any three values |
| EndToEnd.AddThenSub | cgi_bin/math_cgi.c:382-419 | subtracting b from the printed a + b gives back a exactly when Undone says so |
| Lines.GetLine | httpd.c:52-73 | what is stored, how many bytes, and how many are taken off the connection |
| Lines.Socket.Recv | httpd.c:60 | one byte is taken, or none at the end |
| Lines.Socket.Peek | httpd.c:64 | the byte is looked at and not taken |
| LineLaws.LineExact | httpd.c:52-73 | a call returns the first line with LF for CRLF and takes exactly its bytes, if and only if it fits and has no CR followed by anything but LF, CR or the end |
| LineLaws.LinesConcatenate | httpd.c:52-73 | the lines of a stream joined are the stream with LF for CRLF if and only if no line has a lone CR and each fits, or is one cell too long and ends in CRLF |
| Requests.ClearHead | httpd.c:121-130 | what is unread afterwards |
| Requests.GetContentLength | httpd.c:156-179 | the length found and what is unread afterwards |
| Requests.ForwardBody | httpd.c:233-241 | exactly the first n unread bytes go to the pipe and the rest stays unread: none for n not positive, all there are for a larger n |
| Requests.ReceivePost | httpd.c:383-390 | the three together on one connection |
| PostLaws.ClearHeadIff | httpd.c:121-130 | clear_head stops right behind the blank line if and only if no line before it has a length of 0 or -1 modulo 1024 |
| PostLaws.PostDelivered | httpd.c:156-241 | the pipe gets exactly the first n bytes of the body and the rest stays unread, for headers of any length around (before the length none whose parts start with its key), if and only if clear_head passes over those behind it |
| PostLaws.BodyDelivered | httpd.c:156-241 | with the length n written as clients do, the pipe gets body[..n] and body[n..] stays, if and only if no later header has a length of 0 or -1 modulo 1024 |
| PostLaws.NoLength | httpd.c:159-178 | headers without the key up to the end of the stream give the length 0 and nothing to forward |
| PostLaws.AtoiReads | httpd.c:166-167 | white space, a sign or none and digits are read as the signed number, whatever follows |
| PostLaws.LoneCr | httpd.c:62-68 | a CR followed by neither LF nor CR is lost and the byte behind it stored twice |
| PostLaws.LengthRead | httpd.c:166-167 | a decimal length is read as itself |
| RequestLine.MarkTarget | httpd.c:318-331 | every '?' of the target and the white space behind it become NUL; the flag tells whether there was a '?' |
| RequestLine.CopyWord | httpd.c:296-301 | the word at a place |
| RequestLine.PassSpace | httpd.c:303-304 | the place behind the white space |
| RequestLine.SplitGet | httpd.c:316-338 | path up to the first '?', query up to the next one, read back from the overwritten line |
| RequestLine.ParseRequestLine | httpd.c:294-344 | method, path, query and flag, or 405 |
| RequestLine.JoinIff | httpd.c:318-337 | path, '?' and query joined are the target if and only if it has exactly one '?' |
| RequestLine.NotAllowedIff | httpd.c:296-344 | a line is answered with 405 if and only if its first word spells neither GET nor POST, in letters of any case |
| RequestLine.GetLineSplit | httpd.c:294-338 | a line of GET in any case, white space and a target t is split at the first '?' of t, whatever follows t |
| RequestLine.PostLineSplit | httpd.c:294-313 | a line of POST in any case, white space and a target keeps the target as it is |
| Serving.AcceptRequest | httpd.c:264-396 | the end of a request and what is unread then: nothing read, 405, 404, a file to send, or a program with its input |
| Serving.Finish | httpd.c:346-391 | what follows the request line, by what stat says about the path |
| Serving.NoRequestIff | httpd.c:287-291 | a request fails as unread exactly when the stream is empty |
| Serving.MethodNotAllowedIff | httpd.c:340-344 | status 405 exactly for a verb other than GET and POST in any case, with exactly the request line taken |
| Serving.NotFoundIff | httpd.c:346-357 | status 404 exactly when stat misses "/home/lounuo/HTTP" with the path behind it, with exactly the request line taken |
| Serving.PostServed | httpd.c:264-396 | a whole POST request: the program run is the file named, or the default page of a directory; it gets exactly the first n bytes of the body and the rest stays unread, if and only if clear_head passes over the headers behind the length |
| Serving.BodyServed | httpd.c:264-396 | the same with the length written as clients do: the program gets body[..n] and body[n..] stays |
| Serving.GetServed | httpd.c:264-396 | a whole GET request: the file named, or the default page of a directory, is sent, or run for a '?' or when it is executable, without input; no byte behind the blank line is taken if and only if clear_head passes over every header |
| EventLoop.Server.constructor | httpd.c:409-417 | the listening socket is registered and nothing else |
| EventLoop.Server.CloseFd | httpd.c:510 | nothing is left of the descriptor, and every other one is as it was |
| EventLoop.Server.Respond | httpd.c:485-506 | one response more for the connection behind the descriptor, none when it is closed |
| EventLoop.Server.OnAccept | httpd.c:442-464 | a new connection is registered for reading, or nothing is left of it; the others are as they were |
| EventLoop.Server.OnReadable | httpd.c:467-482 | a record for the descriptor is allocated and its registration turned to that record, or nothing without memory; the others are as they were |
| EventLoop.Server.Answer | httpd.c:486-506 | the response or the error page, which may close the socket |
| EventLoop.Server.Release | httpd.c:508-511 | nothing is left of the descriptor, the record is freed once more and gone, other descriptors are as they were |
| EventLoop.Server.OnWritable | httpd.c:483-513 | the server stops exactly for a plain file that stat misses; otherwise nothing is left of the record's descriptor and the record is freed once |
| EventLoop.Server.HandleBatch | httpd.c:439-517 | the loop over a batch is the function RunBatch and keeps the invariant |
| EventLoop.Server.Serve | httpd.c:425-521 | the loop over batches is the function Run and keeps the invariant |
| EventLoop.StepKeeps | httpd.c:442-516 | every event keeps the invariant: descriptors, registrations, records, frees and responses agree |
| EventLoop.OthersKept | httpd.c:439-517 | handling one event leaves the other reported registrations as they are |
| EventLoop.BatchKeeps | httpd.c:435-518 | a batch of distinct registrations keeps the invariant in every order |
| EventLoop.RunKeeps | httpd.c:425-521 | so does every run |
| EventLoop.EveryRun | httpd.c:425-521 | write registrations and live records are in one-to-one correspondence, other records were freed once, no connection got two responses |
| EventLoop.FreedWhenClosed | httpd.c:485-513 | a record is freed in the very step in which its descriptor is closed and unregistered, also when the error page already closed it |
| Runs.StopsIff | httpd.c:486-495 | an event stops a running server if and only if it is a ready write event for a plain file that stat misses |
| Runs.RunGoesOn | httpd.c:425-521 | if every stat succeeds the server never stops |
| Runs.RunStoppedStays | httpd.c:491-495 | once it has stopped nothing happens any more |
| Runs.RunJoin | httpd.c:425 | a run over two lists of batches is the run over the second, from where the first leaves the server |
| Runs.BatchJoin | httpd.c:439 | the same for the events of a batch |
| Runs.RunOne | httpd.c:425-439 | a run over one batch is that batch |
| Runs.BatchOne | httpd.c:439-517 | a batch of one event is one step |
| Runs.EveryAnswer | httpd.c:425-521 | if every stat succeeds, every ready write event of every batch has its record freed exactly once, its connection closed and answered once, or not at all when there was no request, and the server goes on |
| Runs.EveryArrival | httpd.c:442-482 | when a batch is done every connection that was readable has its record to be written from, and every accepted one is registered for reading |
| FormSplit.Split | cgi_bin/MySql/main_mysql.cpp:15-37 | the recorded places and the string with NUL for '&' |
| FormSplit.HandleForm | cgi_bin/MySql/main_mysql.cpp:3-49 | the five fields, or what happens instead |
| FormSplit.EarlyOutcomes | cgi_bin/MySql/main_mysql.cpp:5-12 | nothing happens exactly for the empty query, and the operation is missing exactly when another does not start with 'o' |
| FormSplit.PairsDecoded | cgi_bin/MySql/main_mysql.cpp:15-49 | any list of pairs gives its first five values as the fields, and is undefined exactly when fewer are recorded |
| FormSplit.ValuesCounted | cgi_bin/MySql/main_mysql.cpp:20-36 | one value is recorded for every pair, and one more when the third key does not start with 's' |
| FormSplit.SplitRecovers | cgi_bin/MySql/main_mysql.cpp:15-37 | any list of pairs gives its values in order, with an empty third one put in when two came before and the key does not start with 's' |
| FormSplit.FormRoundTrip | cgi_bin/MySql/main_mysql.cpp:15-49 | the five fields come back, sex empty when it was not sent, empty values kept |
| TrailingSpace.DecodeThenStore | cgi_bin/MySql/mysqllib/include/byte_order_generic.h:56-69 | uint8korr loses nothing: int8store gives the bytes back |
| TrailingSpace.DecodeInjective | cgi_bin/MySql/mysqllib/include/byte_order_generic.h:56-69 | uint8korr is injective |
| TrailingSpace.StoreThenDecode | cgi_bin/MySql/mysqllib/include/byte_order_generic.h:56-69 | every 64-bit word is decoded from the bytes stored for it |
| TrailingSpace.Int8Store | cgi_bin/MySql/mysqllib/include/byte_order_generic.h:83-97 | eight bytes are written, the others kept |
| TrailingSpace.SkipTrailingSpace | cgi_bin/MySql/mysqllib/include/m_string.h:318-330 | everything behind the result is a space, the byte before it is not, and the byte loop stops at the same place |

## Left out

- PostDelivered: assumes that the length line fits the two smaller buffers its value is copied to (`httpd.c:158-169`); a longer one overflows them, which is undefined in C.
- AcceptRequest: method, path and query are not bounded by the sizes of their buffers; stat is a function from paths to what is there.
- PostServed: for a request line that fits its buffer; AcceptRequest itself covers any.
- SkipTrailingSpace: reads a value, the bytes from ptr on, since the original only moves a pointer over them.
- StepKeeps: assumes that accept returns a descriptor that is not open, and that epoll_ctl MOD and DEL succeed on a registered descriptor.
- Lengths and indices of type int are unbounded here; strings longer than 2^31 are not covered.
- Allocation sizes, missing terminators of malloc'ed results and free of shifted or literal pointers in `cgi_bin/math_cgi.c`: a result buffer ends where its array ends, and DIV's copy of the dividend has one cell more, because the strip loops read before they test the length.
- The order in which echo_result's three arguments are adjusted is taken from left to right; C leaves it open.
- More than three parameters write beyond the array in handle_data, and fewer leave a pointer uninitialised; both are the outcome `Undefined`.
- Operands that start with neither sign nor digit are part of HandleData and of QueryAnswered, but the theorems about numbers leave them out, because their first byte is then used as a sign.
- The loops of SubLoop, DIV and MUL that are nested in others are methods of their own here.
- HTML output, environment variables, reading of standard input and `main` of both CGI programs.
- fork, pipe, dup2, exec, sendfile and the reading of the CGI program's answer.
- The libevent callbacks that `main` runs at present (`httpd.c:528-597`): they share one global record and dispatch inside each other in a library that is not part of this model. The epoll version is modelled, in which every registration has its own record.
- The MySQL client calls in `cgi_bin/MySql` behind the splitting of the form, and the other vendored headers.
- int4store and int8store use shifts and masks; here they are divisions and remainders of unbounded integers, with the 32 and 64 bit widths written out.

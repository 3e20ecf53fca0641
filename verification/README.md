# IronVeil, verified core

IronVeil sits between a database client and a MySQL or PostgreSQL server. It decodes the wire
protocol, masks result cells according to rules, and encodes everything again. This project models
that core and proves that it never corrupts and never desynchronises a stream, that masking hits the
right cells, and that a login terminated at the proxy lets in exactly the right client.

Each component has a specification (functions on values) and, where the program works by changing
things, the imperative form (a class or a method with loops) proved equal to it. The lemmas are about
the specification and hold for all inputs, streams and runs.

| file | content |
|---|---|
| `Wrappers`, `Bits`, `Bytes`, `Utf8`, `Text` | results, bitwise arithmetic, byte strings, UTF-8 and its definition, text operations |
| `Lenenc`, `Framing`, `MySqlPackets`, `Handshake`, `ProxyPackets` | MySQL integers, packet framing, packet parsers and writers |
| `MySqlCodec`, `MessageKinds`, `MySqlStreams`, `ResultSets` | the codec's state machine, which packet is read as what, whole streams, the command phase |
| `MySqlFormats`, `PostgresFormats` | what the readers take from which byte of any packet |
| `Auth`, `Negotiation`, `Session` | scrambles and nonces, capability bits, the terminate-mode login as a state machine with a log |
| `SessionSafety`, `Transcript`, `SessionNumbering`, `ShortPackets` | what holds of every login; what every event of it says; packet numbering, also told from the inputs |
| `SessionHonest`, `HonestLogin` | what honest peers get, step by step and over a whole login |
| `LoginFlags` | the flags both legs have after a login, and the command phase that follows it |
| `Rules`, `Masking`, `ArrayMask`, `Interceptor` | the rule list, masking of a cell, the column map |
| `MaskedValues`, `ArrayLiterals` | the bytes that go out for a cell and what of the value they depend on; array literals as a server writes them |
| `MaskedResults`, `LaterResultSets`, `Commands` | MySQL replies masked end to end: one result set, any number of them, and with the client's commands in between |
| `Postgres`, `MaskedPostgres` | the PostgreSQL codec and its streams; its rows masked end to end |
| `Redact`, `Dialects` | SQL literal redaction, and when it hides what the server calls a string |
| `Luhn` | the card-number check |

Main results: `ResultSets.CommandPhase`, `MaskedResults.ClientSeesMaskedResultSet`,
`LaterResultSets.ClientSeesMaskedReplies`, `Commands.ExchangesRelayed`,
`LoginFlags.LoggedInClientSeesMaskedReplies`, `MaskedPostgres.ClientSeesMaskedRows`,
`MaskedPostgres.RightlyTrackedExactly`,
`MySqlStreams.DecodedInPieces`, `MySqlStreams.EncodedRowDecodes`, `SessionSafety.EveryLoginIsSafe`,
`Transcript.EveryEventIsRight`, `Transcript.DatabaseReachesServer`,
`SessionNumbering.EveryLoginCounts`, `SessionHonest.SwitchedResponseAccepted`,
`HonestLogin.HonestLoginCompletes`,
`Handshake.PatchThenParse`, `Handshake.BuiltResponseParses`, `Postgres.StreamDecodes`,
`ArrayMask.MaskArrayStructure`, `ArrayLiterals.LiteralMasked`, `MaskedValues.LetThroughExactly`,
`MaskedValues.DocumentThroughSeedsOnly`, `Rules.DedupeMeaning`, `Rules.KeyIsCoverage`, `Rules.ImportOverlays`,
`Redact.RedactIdempotent`, `Dialects.ReadAlike`, `Luhn.TranspositionDetected`.

## Where the code falls short of its promise

Each of these is proved as an exact condition or shown by a lemma.

- A COM_QUERY whose command byte and text need a continuation packet is not forwarded as it came: it
  is written with one header (`MySqlStreams.QueryForwarded`, an if-and-only-if).
- A row is written back as it came exactly when the server used shortest-form lengths and nothing
  follows the last value (`MySqlStreams.RowForwarded`).
- Without CLIENT_SECURE_CONNECTION a scramble with a zero byte does not survive the handshake response
  (`Handshake.BuiltResponseParses`, an if-and-only-if).
- A later result set of the same query is masked by position in everything described since the query.
  That is right exactly when the columns at its positions have the same strategies as its own
  (`LaterResultSets.RightlyTrackedExactly`); otherwise a protected column can go out as it is
  (`LaterResultSets.LaterColumnExposed`).
- A MySQL command that is sent while a result set is under way puts the codec back into its command
  state. A row is masked exactly while the codec expects rows of its width
  (`Commands.RowMaskedExactly`); the first one after a command goes out as it came
  (`Commands.RowAfterCommandShown`, `Commands.ShortRowShown`).
- A PostgreSQL row is masked under the latest row description, or under nothing if a Query or Parse came
  after it, whichever statement the row belongs to. That is right exactly when the strategies in force
  are those of the row's own columns (`MaskedPostgres.RowMaskedAsOwn`,
  `MaskedPostgres.RightlyTrackedExactly`); otherwise a protected value can go out as it is, when the
  next statement comes early (`MaskedPostgres.RowExposed`) or an earlier prepared statement is executed
  again (`MaskedPostgres.ReexecutedExposed`).
- Redaction reads a backslash as an escape and every apostrophe as the start of a string. It hides
  exactly the server's own strings if and only if no plain PostgreSQL string has a quote after an odd
  number of backslashes, no quoted name or comment has a quote that opens a string, and nothing is
  dollar-quoted (`Dialects.ReadAlike`); otherwise the inside of a string can be logged
  (`Dialects.BackslashShows`, `Dialects.QuoteInNameShows`, `Dialects.QuoteInCommentShows`,
  `Dialects.DollarShows`).
- Compression is meant never to be negotiated, because it would stop the masking
  (src/main.rs:1697-1699, 2001-2004). Only the zlib bit is cleared; compression is negotiated if and
  only if the client asks for zstd and the server offers it (`Negotiation.CompressionNegotiated`,
  `Negotiation.ZstdNegotiated`).
- The two legs agree on a flag after a login if and only if the client sets it only where the server
  offers it (`LoginFlags.LegsAgreeAfterLogin`).
- With CLIENT_OPTIONAL_RESULTSET_METADATA, which is passed through, the flag byte before the column
  count is read as the count, so the header is read right if and only if there is one column
  (`ResultSets.MetadataFlagIsCount`); the second column definition is then read as a row
  (`ResultSets.SecondColumnReadAsRow`).
- A login payload of 16 MiB or more is answered under a number that its own second packet already has
  (`SessionNumbering.LargePacketRepeatsNumber`); with peers that count, a login is numbered 0, 1, 2, …
  on both legs exactly when no such payload is answered (`SessionNumbering.EveryLoginCounts`). It is
  when all that arrives is shorter (`ShortPackets.ShortLoginCounts`), and is not in a login with a user
  name of 16 MiB (`ShortPackets.LongNameMiscounts`).
- A greeting and a response are written with a fixed number. They go on as they came exactly when they
  had it, 0 and 1, and fit one unfinished packet (`MessageKinds.LoginMessageForwarded`).
- The handshake, and an ERR packet the proxy builds, are written with a single header. They can be read
  exactly when they fit one unfinished packet (`SessionHonest.ClientDecodesHello`,
  `SessionHonest.RefusalUnderstood`); a refusal quotes the client's user name, which may be longer.
- A handshake is rebuilt so that it reads back exactly if its second nonce part has 12 to 246 bytes and
  is announced, as the proxy's own is, or is missing together with the plugin name
  (`Handshake.RebuiltHandshakeParses`, an if-and-only-if).
- A header of 4096 columns or more is not recognised, and the first column definition is then read as
  a header of three (`ResultSets.HeaderTakenUp`, an if-and-only-if, `ResultSets.WideResultSetMisread`).
- Normalising a rule whose table name is blank widens it to every table
  (`Rules.NormalizeRuleCoverage`, an if-and-only-if).

Where a comment and the code disagree the model follows the code:

- a note on the response encoder says that the database is recognised by bytes being left
  (src/protocol/mysql.rs:1199-1203), the parser looks at the capability bit (src/protocol/mysql.rs:862);
- the PostgreSQL column map is said to be dropped on Query, Parse and Bind, so that it can never mask
  the wrong columns (src/interceptor.rs:457-459); it is dropped on Query and Parse
  (src/main.rs:1353, 1378);
- redaction is said never to resume in cleartext (src/main.rs:301-303).

## Model

| member | source | states |
|---|---|---|
| `Lenenc.ReadWrite` | src/protocol/mysql.rs:682-724 | every 64-bit number reads back from its encoding, with exactly its bytes consumed, whatever follows |
| `Lenenc.WriteRead` | src/protocol/mysql.rs:1091-1106 | re-encoding what was read gives the same bytes if and only if the shortest form had been used |
| `MySqlFormats.LenencReads` | src/protocol/mysql.rs:682-722 | a number is read if and only if its marker is none of 0xFF and the bytes it announces are there, and is then made of exactly those, the low one first |
| `MySqlFormats.FrameReads` | src/protocol/mysql.rs:363-408 | three length bytes, the low one first, the sequence id and the payload; 0xFFFFFF bytes are kept for what follows, anything else completes a message |
| `MySqlFormats.HeaderWrites` | src/protocol/mysql.rs:1063-1068 | the four bytes of a packet header |
| `MySqlFormats.FlagWords` | src/protocol/mysql.rs:186-193 | the capability flags as the protocol's words |
| `MySqlFormats.BitIs` | src/protocol/mysql.rs:185-193 | a flag is set in a word if its power of two goes into it an odd number of times |
| `MySqlFormats.NulStringReads` | src/protocol/mysql.rs:744-752 | a string up to a zero byte must be text; what is left in the buffer in each case |
| `Framing.WritePacketChunked` | src/protocol/mysql.rs:1073-1089 | the chunking loop appends the canonical packet run of the payload |
| `Framing.ChunkedLength` | src/protocol/mysql.rs:1070-1089 | the run has one header per full 0xFFFFFF bytes and one more, also for exact multiples |
| `MySqlPackets.ParseResultRow` | src/protocol/mysql.rs:1021-1057 | the value loop yields what the recursive reading yields, with the same leftover bytes and the same errors |
| `MySqlPackets.EncodeResultRow` | src/protocol/mysql.rs:1251-1261 | appends the chunked row payload |
| `MySqlPackets.RowRoundTrip` | src/protocol/mysql.rs:1251-1261 | a written row reads back value for value, NULLs apart from empty values |
| `MySqlPackets.RowFirstByte` | src/protocol/mysql.rs:605-645 | a row payload is never empty, never starts with 0xFF, and starts with 0xFE only if it takes several packets |
| `MySqlPackets.RowReencode` | src/protocol/mysql.rs:1021-1057 | decode then encode is the identity on a row payload if and only if the row is canonical |
| `MySqlFormats.OkReads` | src/protocol/mysql.rs:892-925 | where an OK packet has its rows, insert id, status, warnings and text |
| `MySqlFormats.ErrReads` | src/protocol/mysql.rs:927-957 | any ERR packet: when it can be read, and its code, SQL state and text by position |
| `MySqlFormats.EofReads` | src/protocol/mysql.rs:959-981 | any EOF packet: warnings and status by position, 0 where it is too short |
| `MySqlFormats.ColumnReads` | src/protocol/mysql.rs:983-1019 | a column definition: the order of its six strings and the places of its fixed fields |
| `MySqlFormats.FixedBytes` | src/protocol/mysql.rs:1225-1315 | the fixed bytes in the packets the proxy builds |
| `MySqlFormats.ValueReads` | src/protocol/mysql.rs:1021-1057 | 0xFB is NULL, anything else a string behind its length |
| `MySqlFormats.GreetingReads` | src/protocol/mysql.rs:754-793 | when a greeting can be read, and its fields by position |
| `MySqlFormats.GreetingTailReads` | src/protocol/mysql.rs:790-812 | the second nonce part ends at a zero byte within the announced length, then comes the plugin's name |
| `MySqlFormats.ResponseReads` | src/protocol/mysql.rs:817-858 | a response's flags, packet size, character set and user by position |
| `MySqlFormats.ResponseWrites` | src/protocol/mysql.rs:1168-1196 | the order of user, scramble, database and plugin in the response the proxy builds |
| `MySqlFormats.SwitchReads` | src/auth.rs:205-220 | when an auth-switch packet can be read, and its plugin and nonce |
| `MySqlFormats.NonceIs` | src/auth.rs:193-202 | a nonce is what is left without the zero bytes at its end, at most 20 bytes |
| `MySqlCodec.MySqlCodec.DispatchPacket` | src/protocol/mysql.rs:412-647 | the state machine moves and answers as specified in every state |
| `MySqlCodec.MySqlCodec.DecodePacket` | src/protocol/mysql.rs:363-408 | one call consumes packets up to the first complete message, keeping a partial logical packet across calls |
| `MySqlCodec.Decode` | src/protocol/mysql.rs:363-408 | a call that yields a message or an error has consumed at least four bytes, so the read loop ends |
| `MySqlCodec.MySqlCodec.Drain` | src/protocol/mysql.rs:363-408 | calling decode until it wants more bytes yields the whole run of messages |
| `MySqlCodec.MySqlCodec.EncodeMessage` | src/protocol/mysql.rs:653-675 | appends the encoding and advances the client-facing codec past the handshake |
| `MySqlCodec.Dispatch` | src/protocol/mysql.rs:412-647 | every message accounts for the payload it was read from, and the pending packet and the side are left alone; which message it is, is decided below |
| `MessageKinds.QueryReadExactly` | src/protocol/mysql.rs:508-526 | a packet is read as a query if and only if it is a COM_QUERY from a client in its command phase; it then carries what follows the command byte and leaves the codec alone |
| `MessageKinds.QueryDecoded` | src/protocol/mysql.rs:363-526 | the same off the wire for a query of any length, whatever follows |
| `MessageKinds.CommandTaken` | src/protocol/mysql.rs:508-576 | any other command is taken, never fails, and is opaque unless it starts like an OK, ERR or EOF packet |
| `MessageKinds.OkReadExactly` | src/protocol/mysql.rs:412-576 | which packets are read as OK: in three states only, by first byte and format |
| `MessageKinds.ErrReadExactly` | src/protocol/mysql.rs:412-641 | which are read as ERR |
| `MessageKinds.EofReadExactly` | src/protocol/mysql.rs:556-597 | which are read as EOF |
| `MessageKinds.ColumnReadExactly` | src/protocol/mysql.rs:578-603 | which are read as column definitions |
| `MessageKinds.ResultRowReadExactly` | src/protocol/mysql.rs:605-646 | which are read as rows |
| `MessageKinds.LoginMessageReadExactly` | src/protocol/mysql.rs:412-450 | which are read as greeting or response, and how the codec goes on |
| `MessageKinds.LoginMessageForwarded` | src/protocol/mysql.rs:1113-1212 | a greeting and a response go on as they came if and only if they had the number they are written with, 0 and 1, and fit one unfinished packet |
| `MessageKinds.FailsExactly` | src/protocol/mysql.rs:412-647 | in which state which packet ends the connection |
| `MessageKinds.StateAfter` | src/protocol/mysql.rs:412-647 | the state after any packet that was read |
| `MessageKinds.SettingsAfter` | src/protocol/mysql.rs:412-647 | flags change only with a response, the width of rows only with a header |
| `MySqlStreams.DecodeAllAppend` | src/protocol/mysql.rs:363-408 | decoding a concatenation is decoding the first part and then the leftover bytes with the second |
| `MySqlStreams.FragmentationIndependent` | src/protocol/mysql.rs:363-408 | any cutting of a stream gives the same messages, codec, leftover bytes and error |
| `MySqlStreams.DecodedInPieces` | src/protocol/mysql.rs:363-408 | decoding in pieces from a fresh buffer equals decoding the whole |
| `MySqlStreams.Reassembles` | src/protocol/mysql.rs:387-406 | a chunked payload of any size is dispatched whole under its first sequence id, marked as reassembled if it took several packets |
| `MySqlStreams.EncodedRowDecodes` | src/protocol/mysql.rs:605-645 | every row of at least one value of any size decodes, off the wire, as exactly that row, never as terminator or ERR |
| `MySqlStreams.ForwardedVerbatim` | src/protocol/mysql.rs:1214-1315 | in every state and under any flags a payload read as a generic, OK, ERR, EOF or column packet is written back as its packets |
| `MySqlStreams.FrameForwarded` | src/protocol/mysql.rs:363-647 | the same from the bytes of a frame of any number of packets |
| `MySqlStreams.QueryForwarded` | src/protocol/mysql.rs:1218-1223 | a COM_QUERY is written back as it came if and only if it fits one unfinished packet |
| `MySqlStreams.RowForwarded` | src/protocol/mysql.rs:1021-1057 | a decoded row is written back as it came if and only if it is canonical |
| `MySqlStreams.ChunkedInjective` | src/protocol/mysql.rs:1073-1089 | different payloads never share a packet run |
| `ResultSets.ResultSetRead` | src/protocol/mysql.rs:508-646 | a well-formed text result set is read as exactly its header, columns, EOF where due, rows and terminator, ending in the command phase |
| `ResultSets.HeaderTakenUp` | src/protocol/mysql.rs:526-560 | a result set header is taken up if and only if it announces 1 to 4095 columns; otherwise it is passed on and the codec stays in the command phase |
| `ResultSets.WideResultSetMisread` | src/protocol/mysql.rs:526-560 | after a wider header the first column definition is read as the header of three columns |
| `ResultSets.MetadataFlagIsCount` | src/protocol/mysql.rs:526-546 | a header with a metadata flag is read as that of one column, so rightly if and only if there is one |
| `ResultSets.SecondColumnReadAsRow` | src/protocol/mysql.rs:605-645 | then the second column definition is read and written as a row that holds the catalog name |
| `ResultSets.ReadsReencode` | src/protocol/mysql.rs:653-675 | whatever is read so is written back byte for byte |
| `ResultSets.WireDecodes` | src/protocol/mysql.rs:363-408 | the packets' bytes decode to their messages and decoding goes on with what follows |
| `ResultSets.CommandPhase` | src/protocol/mysql.rs:508-646 | any sequence of replies decodes to exactly its messages, the codec is back in the command phase, and encoding the messages reproduces the server's bytes |
| `Handshake.PatchTouchesOnlyFlags` | src/protocol/mysql.rs:1113-1135 | new capability flags in a parsed handshake change four bytes only, and none if the flags are the same |
| `Handshake.PatchThenParse` | src/protocol/mysql.rs:754-815 | re-parsing gives the new flags and every other field, the variable ones if the bits that govern them are kept |
| `Handshake.RebuiltHandshakeParses` | src/protocol/mysql.rs:1137-1158 | a handshake rebuilt from fields reads back as those fields if and only if its nonce part and plugin name can be found again; the other fields always do |
| `Handshake.BuiltResponseParses` | src/protocol/mysql.rs:1168-1196 | the built response reads back field by field with every byte consumed and is no SSLRequest; its auth bytes survive if and only if they fit |
| `Negotiation.NegotiateUpstreamCapabilities` | src/main.rs:1703-1726 | computes the negotiated word |
| `Negotiation.NegotiatedBits` | src/main.rs:1688-1726 | only bits the server offers, client and server on every bit not owned, never the bit for zlib compression or that for attributes, the proxy's own needs as offered |
| `Negotiation.CompressionNegotiated` | src/main.rs:1697-1716 | some compression is negotiated if and only if both sides have the zstd bit, and the client is offered it if and only if the server has it |
| `Negotiation.ZstdNegotiated` | src/main.rs:1703-1726 | two flag words for which compression is negotiated |
| `Negotiation.HelloBits` | src/main.rs:1998-2030 | which bits the client is shown |
| `Negotiation.LegsAgree` | src/main.rs:1688-1702 | upstream gets what the client has left after the proxy's handshake, on every bit the proxy does not own |
| `Negotiation.SslRequestIsRead` | src/protocol/mysql.rs:169-183 | the built SSLRequest is read as one, with the given packet size and character set and the given flags but for the one added |
| `ProxyPackets.BuiltOkReads` | src/protocol/mysql.rs:1263-1286 | a built OK packet reads back, status words only with the newer protocol |
| `ProxyPackets.BuiltErrReads` | src/protocol/mysql.rs:1288-1308 | a built ERR packet reads back, SQL state only with the newer protocol |
| `ProxyPackets.BuiltEofReads` | src/protocol/mysql.rs:1310-1325 | a built EOF packet reads back |
| `ProxyPackets.BuiltColumnReads` | src/protocol/mysql.rs:1225-1249 | a built column definition reads back in all its fields |
| `Auth.ConstantTimeEq` | src/auth.rs:88-97 | the accumulating comparison decides equality |
| `Auth.VerifyScramble` | src/auth.rs:152-175 | decides what a server accepts: the unmasked response must hash to the stored digest |
| `Auth.XorBits` | src/auth.rs:99-101 | byte by byte and bit by bit, in step, as far as both strings go |
| `Auth.ScrambleBits` | src/auth.rs:127-149 | the scramble differs from the digest of the password in exactly the bits of the protocol's token, for both plugins |
| `Auth.XorNonceBits` | src/auth.rs:311-314 | the nonce is repeated along the password, bit by bit |
| `Auth.ScrambleVerifies` | src/auth.rs:127-175 | the right scramble is accepted under both plugins and any nonce |
| `Auth.OnlyScrambleVerifies` | src/auth.rs:146-175 | any other accepted response yields a second preimage of the stored digest |
| `Auth.VerifiesExactly` | src/auth.rs:152-175 | without such a second preimage exactly the right scramble is accepted, at any length |
| `Auth.TrimNonce` | src/auth.rs:193-202 | the trimming loop drops trailing zeros and cuts at 20 bytes |
| `Auth.GoodNonceKept` | src/auth.rs:177-202 | a zero-free 20-byte nonce survives, with or without a trailing NUL |
| `Auth.AuthSwitchRoundTrip` | src/auth.rs:205-232 | plugin and nonce read back from the auth-switch packet |
| `Auth.XorNonceInPlace` | src/auth.rs:311-314 | the in-place loop combines each byte with the repeated nonce |
| `Auth.RsaReplyOpens` | src/auth.rs:301-330 | a server that decrypts and undoes the nonce has the terminated password |
| `Session.Login.RunClientAuth` | src/main.rs:1732-1814 | the client leg behaves as specified |
| `Session.Login.RunUpstreamAuth` | src/main.rs:1817-1961 | the upstream loop behaves as specified |
| `Session.Login.Run` | src/main.rs:1964-2287 | the terminate-mode login behaves as specified, from the first packet to the last |
| `SessionSafety.LoopSafe` | src/main.rs:1868-1961 | every step of the upstream loop keeps the log justified, and the packets heard stay within the rounds left |
| `SessionSafety.EveryLoginIsSafe` | src/main.rs:1964-2287 | in every login nothing goes upstream before the client's scramble verified, the client's OK follows the server's, cleartext goes over TLS only, every scramble and RSA reply uses the latest nonce, at most 20 packets are heard in the exchange |
| `Transcript.EveryEventIsRight` | src/main.rs:1732-2287 | in every login each event says exactly what it should, given the greeting, the client's response and what came before: the handshake shown, the plugin asked for, who is refused, the SSLRequest, the response with the client's database, the scramble under the plugin and nonce of the switch just heard |
| `Transcript.DatabaseReachesServer` | src/main.rs:2203-2215 | from the bytes of any login's response a server that offers CLIENT_CONNECT_WITH_DB reads the database the client named, or else the configured one |
| `Transcript.RefusedIsTold` | src/main.rs:1745-1813 | a client whose answer can be read is let in or told by name that it is refused |
| `Transcript.SwitchAnswered` | src/main.rs:1894-1916 | a switch to a known plugin is met with the scramble for it and its nonce, and the login goes on under both |
| `Transcript.OthersAnswered` | src/main.rs:1917-1961 | fast-auth success is met with nothing, a request for the password with it over TLS or under the key, anything else ends the login |
| `Transcript.PluginNamed` | src/auth.rs:59-73 | each plugin is known by its own name and no other |
| `MySqlFormats.PluginNames` | src/auth.rs:59-64 | the names of the two plugins, letter by letter |
| `SessionNumbering.EveryLoginInStep` | src/main.rs:1740-2281 | if the peers count, every packet the proxy sends has the number after the first packet of what it answers, in every outcome |
| `SessionNumbering.EveryLoginCounts` | src/main.rs:1740-2281 | then both legs are numbered 0, 1, 2, … modulo 256, in every outcome, if and only if everything the proxy answers had come in one packet (or 256 k + 1); its own response may take several |
| `SessionNumbering.NumberedCounts` | src/main.rs:1740-2281 | every packet has the number due if and only if both legs count 0, 1, 2, …, packets of one large payload included |
| `SessionNumbering.ChunksNumbered` | src/protocol/mysql.rs:1073-1089 | the packets of one payload bear consecutive numbers |
| `SessionNumbering.LargePacketRepeatsNumber` | src/main.rs:1894-1921 | a server packet that takes several packets is answered under a number already used |
| `ShortPackets.ShortLoginCounts` | src/main.rs:1740-2281 | if all that arrives is shorter than 16 MiB and the peers count, both legs are numbered 0, 1, 2, … in every login |
| `ShortPackets.LongResponseMiscounts` | src/main.rs:1740-1760 | in any login whose response takes several packets and names another plugin, the peers count and the client leg does not |
| `ShortPackets.LongNameMiscounts` | src/main.rs:1740-1760 | such a login, from its first byte |
| `SessionHonest.ClientReadsHello` | src/main.rs:2014-2031 | the client reads the proxy's nonce and plugin from the re-encoded handshake |
| `SessionHonest.ClientDecodesHello` | src/protocol/mysql.rs:1137-1162 | the same from the bytes on the wire, if and only if the handshake fits one unfinished packet |
| `SessionHonest.DirectResponseAccepted` | src/main.rs:1745-1813 | a client naming the plugin is let in exactly with the right user and scramble |
| `SessionHonest.SwitchedResponseAccepted` | src/main.rs:1745-1813 | any other client is asked to switch, can read plugin and nonce, and is let in exactly with the right scramble |
| `SessionHonest.UpstreamResponseReads` | src/main.rs:1830-1866 | the proxy's own response verifies at the server and reads back, database and plugin as the server's flags allow; which database that is, is said outright |
| `SessionHonest.LoopCompletes` | src/main.rs:1868-1961 | with a cooperating server, over TLS or with the pinned RSA key, the login succeeds if and only if OK is among the first twenty packets |
| `SessionHonest.LoginOkUnderstood` | src/main.rs:2250-2281 | the final OK ends the client's exchange in its command phase |
| `SessionHonest.FastAuthUnderstood` | src/auth.rs:236-241 | the fast-auth packet is read as success without reply |
| `SessionHonest.RefusalUnderstood` | src/main.rs:1786-1808 | every refusal is read as access denied if and only if it fits one unfinished packet |
| `SessionHonest.RefusalLength` | src/main.rs:1786-1808 | how long a refusal is: only the user name can make it too long |
| `SessionHonest.RefusalNames` | src/main.rs:1790-1800 | a client that is refused is told its own name |
| `HonestLogin.HonestLoginCompletes` | src/main.rs:1964-2287 | a client that answers the nonce it reads, with or without TLS or a plugin switch, and a cooperating server: the login ends with the client's OK, or with a refusal if the server's OK is not among twenty packets |
| `HonestLogin.ClientLegCompletes` | src/main.rs:1745-1813 | the client leg accepts the right answer by either way and leaves the other leg alone |
| `Rules.SameKeySameColumns` | src/api.rs:372-376 | rules with equal normalised keys cover the same columns on both protocols |
| `Rules.KeyIsCoverage` | src/api.rs:372-376 | two rules have the same key if and only if they cover the same columns |
| `Rules.FirstMatch` | src/interceptor.rs:659-675 | there is a strategy if and only if some rule covers the column |
| `Rules.FirstMatchExactly` | src/interceptor.rs:659-675 | it is the strategy of the first rule that matches, and there is none if and only if no rule does |
| `Interceptor.MySqlRuleCovers` | src/interceptor.rs:646-672 | which columns a rule covers, told from the names in the column definition; an unknown source name covers nothing |
| `Interceptor.PgRuleCovers` | src/interceptor.rs:485-531 | the same for a PostgreSQL field and the catalog; a rule with a table covers no field of an unknown table |
| `Interceptor.TableRegistered` | src/interceptor.rs:465-475 | a table is known by its bare and its qualified name, and no other table gets a name |
| `Interceptor.ColumnRegistered` | src/interceptor.rs:477-483 | a position is known by the latest name registered for it, and no other changes |
| `Text.NormalizeIs` | src/interceptor.rs:94-96 | a name without the blanks around it, with A to Z and nothing else in lower case |
| `Text.WhitespaceIs` | src/interceptor.rs:94-96 | the code points that count as blanks, one by one |
| `Text.Parts` | src/interceptor.rs:94-96 | every text is a name with blanks around it, so that this says what any text is normalised to |
| `Rules.NormalizeRuleCoverage` | src/api.rs:405-412 | normalising keeps a rule's coverage if and only if its table name is not blank, and otherwise widens it to every table; it keeps the strategy and is idempotent |
| `Rules.DedupeMeaning` | src/api.rs:378-383 | deduplication keeps every column's strategy, makes keys distinct and is idempotent |
| `Rules.UpsertMap` | src/api.rs:385-401 | an upsert changes the rule table at one key, keeps places, and adds only for a new key |
| `Rules.UpsertAt` | src/api.rs:385-401 | the first rule with the key takes the strategy, otherwise the rule goes last |
| `Rules.ImportOverlays` | src/api.rs:571-596 | an import is existing rules (first wins) overlaid by imported ones (last wins), distinct keys, order kept, counts adding up |
| `Rules.ImportReports` | src/api.rs:578-596 | the three numbers an import reports are those told from the table of the rules |
| `Rules.ImportTwice` | src/api.rs:571-596 | the same import again changes no rule |
| `Rules.DeleteMeaning` | src/api.rs:488-505 | nothing named is left, and a column none of whose rules went keeps its strategy |
| `Rules.DeletesExactly` | src/api.rs:488-505 | a request without a table names the column's rules on every table, one with a table only that table's |
| `Rules.RuleList.DedupeRules` | src/api.rs:378-383 | the retain with a seen set, and the number removed |
| `Rules.RuleList.UpsertRule` | src/api.rs:385-401 | find and update, or push |
| `Rules.RuleList.ImportRules` | src/api.rs:578-596 | the import loop with its three counters |
| `Rules.RuleList.DeleteRule` | src/api.rs:488-508 | the retain of a delete request |
| `ArrayMask.SplitElements` | src/interceptor.rs:166-192 | the flag-driven loop splits at unquoted, unescaped commas |
| `ArrayMask.JoinSplit` | src/interceptor.rs:166-192 | joining the elements gives the content back, for every string |
| `ArrayMask.SplitJoin` | src/interceptor.rs:166-228 | elements that close their quotes split again where they were joined |
| `ArrayMask.MaskPostgresArray` | src/interceptor.rs:161-228 | the masking loop |
| `ArrayMask.MaskArrayStructure` | src/interceptor.rs:161-228 | after masking as many elements, each unmasked one verbatim in its place, each masked one its quoted fake |
| `ArrayLiterals.LiteralSplits` | src/interceptor.rs:166-206 | a literal as PostgreSQL writes it, quoted and escaped where it must be, is read as exactly its values, whatever characters they hold |
| `ArrayLiterals.LiteralMasked` | src/interceptor.rs:161-228 | and masked by replacing exactly the sensitive ones |
| `Masking.AssembleSpans` | src/scanner.rs:196-216 | the span assembly loop |
| `Masking.AssembleKeepsGaps` | src/scanner.rs:196-216 | the text around the matches is kept character for character |
| `Masking.MaskJsonLeaves` | src/interceptor.rs:124-159 | only string leaves change, each as if masked alone; "changed" if and only if some leaf was masked |
| `Masking.ExplicitRuleFailsClosed` | src/interceptor.rs:277-332 | under an explicit rule the original is kept only as JSON in which nothing is sensitive or that prints alike |
| `Masking.MaskedThroughSeedOnly` | src/interceptor.rs:320-332 | under other explicit rules the result depends on the value through the keyed seed or hash only |
| `Masking.UnruledCellKept` | src/interceptor.rs:334-408 | without a rule a cell is kept if and only if the heuristics are off, or it is not text, or it is JSON or other text in which nothing is sensitive |
| `MaskedValues.ExplicitRuleWrites` | src/interceptor.rs:277-332 | the bytes that go out under an explicit rule; a value that is no JSON under a json rule becomes a constant |
| `MaskedValues.NoJsonNothingShows` | src/interceptor.rs:304-318 | under a json rule any two values that are no JSON are replaced alike |
| `MaskedValues.LetThroughExactly` | src/interceptor.rs:277-332 | when the bytes that go out under a rule are the value itself |
| `MaskedValues.DocumentThroughSeedsOnly` | src/interceptor.rs:124-159 | documents of one shape whose strings are pairwise of the same kind and seed are masked into the same document |
| `MaskedValues.UnruledCellWrites` | src/interceptor.rs:334-408 | the bytes that go out without a rule, and in which order that is decided |
| `MaskedValues.SensitiveTextThroughSeedOnly` | src/interceptor.rs:384-396 | of sensitive text without a rule nothing shows but its kind and its keyed seed |
| `MaskedValues.ArrayThroughSeedsOnly` | src/interceptor.rs:161-228 | in an array literal as PostgreSQL writes it exactly the sensitive values are replaced, by the fakes for their kinds and keyed seeds |
| `MaskedValues.SpansReplaced` | src/scanner.rs:174-216 | each address and then each telephone number is replaced by its keyed fake, everything around them stays |
| `Interceptor.TrackedAfterReset` | src/interceptor.rs:638-676 | after a reset position i has the first-match strategy of column i and nothing else has an entry |
| `Interceptor.LaterResultSetAligned` | src/interceptor.rs:646-676 | a later result set has the strategies of the columns described at its positions since the reset, which are its own if and only if they agree |
| `Interceptor.AliasCannotHide` | src/interceptor.rs:465-531 | a label cannot hide a registered PostgreSQL source column from its rule |
| `Interceptor.MySqlAliasCannotHide` | src/interceptor.rs:646-675 | nor a MySQL source column |
| `Interceptor.MySqlAnonymizer.OnColumnDefinition` | src/interceptor.rs:646-676 | records the label, and for the column's position the strategy of the rule at the first index that matches, or none |
| `Interceptor.MySqlAnonymizer.OnResultRow` | src/interceptor.rs:678-739 | masks each value with its position's strategy |
| `Interceptor.Anonymizer.OnRowDescription` | src/interceptor.rs:499-534 | starts afresh; each position has the strategy of the rule at the first index that matches its field, or none |
| `Interceptor.Anonymizer.OnDataRow` | src/interceptor.rs:536-600 | masks each value with its position's strategy |
| `Interceptor.MaskRow` | src/interceptor.rs:678-739 | as many values, NULL exactly where it was |
| `MaskedResults.ForwardReplies` | src/main.rs:2453-2485 | the relay loop from decoded replies to client bytes |
| `MaskedResults.ResultSetMasked` | src/main.rs:2462-2485 | relaying a result set after a reset gives the well-formed masked one, each value under its own column's first match |
| `MaskedResults.ClientSeesMaskedResultSet` | src/main.rs:2400-2485 | from the server's bytes to the client's decoder: exactly the masked result set, and the following bytes untouched |
| `MaskedResults.ResultSetRelayed` | src/main.rs:2462-2485 | the same after other columns were described: each value under the column that has its position |
| `LaterResultSets.ClientSeesMaskedReplies` | src/main.rs:2400-2485 | for any replies to one query, from the server's bytes to the client's decoder: exactly the replies masked by position, and the following bytes untouched |
| `LaterResultSets.RightlyTrackedExactly` | src/main.rs:2400-2485 | all rows get their own columns' strategies if and only if every result set's columns agree with those described at its positions |
| `LaterResultSets.AlignedIsRight` | src/interceptor.rs:678-739 | then what is sent on is every value masked under its own column's first match |
| `LaterResultSets.ClientDecodesMaskedReplies` | src/main.rs:2453-2485 | the same when nothing follows the replies |
| `LaterResultSets.LaterColumnExposed` | src/main.rs:2400-2404 | two result sets for which a protected value is sent on as it is |
| `Commands.RelayPackets` | src/main.rs:2374-2485 | the loop over packets from both sides |
| `Commands.CommandHandled` | src/main.rs:2374-2440 | what each command does, told from its first byte: the three of the binary protocol are refused and change nothing, a COM_QUERY resets the column map, all but the refused go on |
| `Commands.UnsupportedReads` | src/main.rs:2423-2431 | a refused client reads error 1295, HY000 |
| `Commands.ExchangesRelayed` | src/main.rs:2374-2485 | any commands, each after the replies to the one before: the client is sent exactly the refusals and the replies masked by position since the last query, the server exactly the commands that are not refused |
| `Commands.CommandsDecoded` | src/main.rs:2374-2440 | the client's bytes are read as its commands, one by one, of any size |
| `Commands.ServerGetsCommands` | src/main.rs:2440 | the server gets the very bytes of those commands if and only if every query among them fits one unfinished packet |
| `Commands.RowReadExactly` | src/protocol/mysql.rs:605-645 | a row is read as itself if and only if the codec expects rows of its width |
| `Commands.RowMaskedExactly` | src/main.rs:2464-2470 | exactly then what is sent for it is the masked row |
| `Commands.RowAfterCommandShown` | src/main.rs:2400-2436 | after a command the next row goes out as it came, unless it cannot be read |
| `Commands.ShortRowShown` | src/main.rs:2400-2436 | a row for which that happens |
| `LoginFlags.LoginNegotiates` | src/main.rs:1964-2281 | after every login that ends with the client's OK the client leg has the flags of a response the client sent and the upstream leg those negotiated for it |
| `LoginFlags.LegsAgreeAfterLogin` | src/main.rs:1688-1702 | then the legs agree on a flag the proxy does not own if and only if the client has it only where the server offers it |
| `LoginFlags.LoggedInClientSeesMaskedReplies` | src/main.rs:1964-2485 | login and command phase together: the client decodes exactly the masked replies |
| `Postgres.PostgresCodec.DecodeMessage` | src/protocol/postgres.rs:94-289 | one call takes a whole frame, fails or waits |
| `Postgres.PostgresCodec.EncodeMessage` | src/protocol/postgres.rs:295-402 | appends the encoding |
| `Postgres.ReadValues` | src/protocol/postgres.rs:217-255 | the column loop |
| `Postgres.ReadFields` | src/protocol/postgres.rs:184-213 | the field loop |
| `Postgres.ReadParams` | src/protocol/postgres.rs:126-136 | the parameter loop |
| `Postgres.DeclaredLengthRight` | src/protocol/postgres.rs:295-402 | every declared length is the number of bytes written |
| `Postgres.MessageRoundTrip` | src/protocol/postgres.rs:94-402 | each sendable message decodes from its encoding, whatever follows |
| `PostgresFormats.StartupReads` | src/protocol/postgres.rs:94-144 | the first frame: its bounds, the request for TLS, version and parameters, when to wait and when to fail |
| `PostgresFormats.FrameReads` | src/protocol/postgres.rs:145-181 | any later frame: its bounds, type and body, when to wait and when to fail |
| `PostgresFormats.DescriptionReads` | src/protocol/postgres.rs:184-216 | a row description: a count and as many fields |
| `PostgresFormats.RowReads` | src/protocol/postgres.rs:217-258 | a row: a count and as many values |
| `PostgresFormats.QueryReads` | src/protocol/postgres.rs:259-262 | a query: its text up to a zero byte, an error without one |
| `PostgresFormats.ParamsRead` | src/protocol/postgres.rs:126-136 | startup parameters: pairs of strings up to an empty key |
| `PostgresFormats.ParamsFail` | src/protocol/postgres.rs:126-136 | and when they fail |
| `PostgresFormats.FieldReads` | src/protocol/postgres.rs:184-213 | a field of a row description by position, signs included |
| `PostgresFormats.ValueReads` | src/protocol/postgres.rs:224-255 | four bytes of FF are NULL, any other negative length an error |
| `PostgresFormats.ParseReads` | src/protocol/postgres.rs:263-281 | a Parse message: two strings, a count and the types |
| `PostgresFormats.KindIsLetter` | src/protocol/postgres.rs:183-289 | the kind of a message is told from its type letter alone |
| `Utf8.Utf8Exactly` | src/protocol/postgres.rs:406-420 | the byte strings taken for text are exactly those that some Unicode scalar values are encoded as |
| `Postgres.FragmentationIndependent` | src/protocol/postgres.rs:94-289 | any cutting of a stream decodes alike |
| `Postgres.StreamDecodes` | src/protocol/postgres.rs:94-402 | a list of messages comes out of its bytes, however they arrive, and nothing is left |
| `Postgres.RewrittenStreamDecodes` | src/protocol/postgres.rs:183-225 | so does the list with its data rows rewritten |
| `MaskedPostgres.RelayEvents` | src/main.rs:1340-1445 | the relay of messages from both sides and of catalog loads; the server is sent everything the client says |
| `MaskedPostgres.RelayMasks` | src/main.rs:1423-1430 | every row is masked under the first matches of the latest row description since the last client statement, for any number of result sets; nothing else is touched |
| `MaskedPostgres.ClientSeesMaskedRows` | src/main.rs:1423-1430 | from the server's bytes, however they arrive, to the client's decoder: exactly those messages |
| `MaskedPostgres.RowMaskedAsOwn` | src/main.rs:1351-1385 | a row of whichever statement has its own columns' strategies if and only if the description in force has the same, or none is in force and no rule covers its columns |
| `MaskedPostgres.RightlyTrackedExactly` | src/interceptor.rs:457-463 | over any run, with statements executed again in any order, the strategies are right throughout if and only if those in force always agree |
| `MaskedPostgres.AgreeingIsRight` | src/interceptor.rs:536-600 | then what is sent is every row masked under its own columns |
| `MaskedPostgres.RowAfterStatement` | src/main.rs:1351-1378 | a row of the latest description has its strategies if and only if no client statement came between them or no rule covers its columns |
| `MaskedPostgres.ReexecutedExposed` | src/main.rs:1378-1385 | a run in which an earlier prepared statement is executed again and its protected value is sent on as it is |
| `MaskedPostgres.RowExposed` | src/main.rs:1351-1378 | a run in which a protected value is sent on as it is |
| `Redact.RedactSqlLiterals` | src/main.rs:304-335 | the character loop renders the token skeleton |
| `Redact.LiteralsDoNotShow` | src/main.rs:292-335 | statements that differ only inside a literal, as the redactor reads literals, are logged alike |
| `Redact.UnterminatedSwallows` | src/main.rs:302-335 | what the redactor reads as an unterminated literal swallows the rest |
| `Redact.RedactIdempotent` | src/main.rs:304-335 | redacting twice is redacting once, in both quoting modes |
| `Dialects.ReadAlike` | src/main.rs:292-335 | the redactor hides exactly the strings of the server's dialect if and only if every part of the statement is harmless, whichever conditional blocks the server runs |
| `Dialects.StringReadAlike` | src/main.rs:313-329 | a string in which a backslash is no escape ends where the redactor thinks if and only if no quote in it follows an odd number of backslashes |
| `Dialects.HarmlessHidden` | src/main.rs:304-335 | then the log shows the statement with each of those strings as a question mark |
| `Dialects.StringsDoNotShow` | src/main.rs:292-303 | and statements that differ only inside such strings are logged alike |
| `Dialects.BackslashShows` | src/main.rs:313-329 | a PostgreSQL string that ends in a backslash makes the inside of the next one show, whatever it is |
| `Dialects.QuoteInNameShows` | src/main.rs:308-329 | so does an apostrophe in a quoted name, in both dialects |
| `Dialects.QuoteInCommentShows` | src/main.rs:308-329 | and an apostrophe in a comment, a block that the MySQL server skips included |
| `Dialects.DollarShows` | src/main.rs:304-335 | a dollar-quoted string is logged as it is |
| `Luhn.LuhnValid` | src/scanner.rs:68-85 | the loop decides the checksum, false for any non-digit |
| `Luhn.ValidByPairs` | src/scanner.rs:68-85 | valid if and only if all are digits and the digits, every second from the right replaced by the digit sum of its double, add up to a multiple of ten |
| `Luhn.LeadingZero` | src/scanner.rs:68-85 | leading zeros do not matter |
| `Luhn.SingleErrorDetected` | src/scanner.rs:68-85 | changing any one digit of a valid number makes it invalid |
| `Luhn.TranspositionDetected` | src/scanner.rs:68-85 | swapping two adjacent distinct digits is noticed if and only if they are not 0 and 9 |
| `Luhn.ExactlyOneCheckDigit` | src/scanner.rs:68-85 | every prefix has exactly one valid check digit |

## Left out

- Sockets, TLS handshakes, timeouts, shutdown and task scheduling: the login takes their outcomes as inputs (a packet, the end of the stream, a failure, whether TLS came up). A failed write ends a login early; the safety results hold of every prefix of a log.
- The pass-through login relay (src/main.rs:2293-2368).
- SHA-1, SHA-256, RSA, the pattern scanner, the generators of fakes, JSON text and lossy UTF-8 decoding: parameters, with only the facts that a lemma states (digest lengths, spans in order, quote-free fakes). Collision freedom is assumed only where a lemma says so.
- Error texts are kept as short constants; logging, metrics, statistics and audit records are not modelled.
- The straight-line packet parsers and writers are functions that return the remaining bytes instead of advancing a buffer; the loops, the codecs, the login and the rule list are imperative. JSON documents are rebuilt rather than rewritten in place.
- SessionNumbering.EveryLoginCounts: of what the proxy sends only its handshake response is counted as several packets when it is long; the rest is written with one header or is short unless the configured password is not.
- HonestLogin.HonestLoginCompletes: the packets of each side are given whole; that the greeting and the refusal can be decoded from their bytes is stated separately.
- MaskedPostgres.RightlyTrackedExactly: which columns a row has is given with the row; the program does not track which prepared statement is executed, and neither does the model.
- Dialects.ReadAlike: the servers' default modes, MySQL with backslash escapes and without ANSI_QUOTES, PostgreSQL with standard-conforming strings. An escape string continued on the next line counts as a plain one, and an optimizer hint as a comment, so a string inside either is not called harmless even where redaction hides it. Which conditional blocks a MySQL server runs is a parameter.
- Commands.ExchangesRelayed: whole packets arrive between the commands; a command that is read as an OK, ERR or EOF packet does not put the codec back, so it must come when the codec is ready.
- Postgres.StreamDecodes: frames within the decoder's own bounds and strings free of NUL; bodies with trailing bytes, which the decoder drops, are not among the encodings.
- Rules.ImportOverlays: the check for known strategies before an import and the saving of the configuration are not modelled.
- Configuration loading, the management server's routes and authentication, scanning of databases, health checks and the web interface.

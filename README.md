# LogDevice plumbing, modelled and verified in Dafny

This project models the plumbing around LogDevice's sequencers and storage
nodes:

- **The two rqlite-backed compare-and-swap stores.** `RqliteEpochStore` keeps
  epoch metadata and last-clean-epoch rows. `RqliteVersionedConfigStore` keeps
  versioned config values.
- **The rqlite HTTP client** they both use.
- **The ZooKeeper epoch store's read-modify-write decisions.**
- **The rqlite config** (`scheme://quorum`).
- **Checkpointed-reader bookkeeping.**
- **The append probe controller's per-node health machine.**
- **The server-setting parsers and validators.**
- **The admin API's snapshot, counter, override, replication and status
  handlers.**
- **The logging helpers.**

The model is split into one module per source file:

| module (file) | what it models |
|---|---|
| `HexCodec` (`hex_codec.dfy`) | `str2hex`/`hex2str`, which both rqlite stores carry identical copies of |
| `RqliteServer` (`rqlite_server.dfy`) | The rqlite database the stores talk to: a class holding tables, each a map from key to (hex value, version). It executes the stores' statements with SQLite's semantics, with and without a transaction. |
| `RqliteClient` (`rqlite_client.dfy`) | Request serialization, reply extraction and the non-200 fallback |
| `RqliteEpochStore` (`rqlite_epoch_store.dfy`) | The rqlite epoch store |
| `RqliteConfigStore` (`rqlite_config_store.dfy`) | The rqlite config store |
| `EpochStoreRequest` (`epoch_store_request.dfy`) | The steps both epoch stores take after a read |
| `Zookeeper` (`zookeeper.dfy`) | The ensemble the ZooKeeper store talks to: znodes with versions, conditional `setData`, all-or-nothing multi-ops and `createWithAncestors` |
| `ZookeeperEpochStore` (`zookeeper_epoch_store.dfy`) | The ZooKeeper epoch store |
| `RqliteConfig` (`rqlite_config.dfy`) | The rqlite config |
| `CheckpointedReaderBase`, `SyncCheckpointedReader` | The checkpointed reader and its synchronous implementation |
| `AppendProbeController` | The per-node health machine |
| `ServerSettings` | The server-setting parsers and validators |
| `AdminApi` | The admin API handlers |
| `Debug`, `ModuleRegistry` | The logging helpers |

Shared helpers:

- `Wrappers`: Option and Result.
- `Errors`: the `E::` status codes.
- `Json`: an abstract JSON tree standing for gason and `folly::dynamic` values.
- `Text`: the string routines of `folly::split`, `split_step`, `std::getline`,
  `find` and `std::mismatch`.

The callback chains of the source are collapsed into sequential calls, and
the status a callback receives becomes the method's result. Everything the
code calls but does not define is a function parameter or a class with a
specified state. That covers:

- ZooKeeper's `toStatus`;
- the request hooks of the epoch stores;
- the config store's version extraction and mutator;
- `parse_network_priority`;
- `parseLoglevel`;
- `Sockaddr` rendering.

## Model

| member | source | states |
|---|---|---|
| HexCodec.Str2Hex | logdevice/server/epoch_store/RqliteEpochStore.cpp:396-403 | the loop's output is `ToHex` of the value: two lowercase hex digits per byte, in order |
| HexCodec.Hex2Str | logdevice/server/epoch_store/RqliteEpochStore.cpp:405-415 | the loop over two-character chunks yields `FromHex` of the text, one byte per chunk |
| HexCodec.HexPair | logdevice/common/RqliteVersionedConfigStore.cpp:376-383 | one byte renders as exactly two lowercase hex digits |
| HexCodec.FromHex | logdevice/common/RqliteVersionedConfigStore.cpp:385-395 | hex2str yields one byte per two characters, the odd last one included |
| HexCodec.ToHexShape | logdevice/server/epoch_store/RqliteEpochStore.cpp:396-403 | str2hex output has length 2·\|s\| and holds only lowercase hex digits |
| HexCodec.PairRoundTrip | logdevice/server/epoch_store/RqliteEpochStore.cpp:405-415 | reading back the two digits of a byte with `std::hex` gives the byte |
| HexCodec.FromHexToHex | logdevice/server/epoch_store/RqliteEpochStore.cpp:396-415 | hex2str(str2hex(s)) == s for every byte string |
| HexCodec.ToHexFromHex | logdevice/common/RqliteVersionedConfigStore.cpp:376-395 | str2hex(hex2str(h)) == h for every canonical hex text, so the codec is a bijection there |
| HexCodec.ToHexInjective | logdevice/common/RqliteVersionedConfigStore.cpp:376-383 | distinct values have distinct hex columns |
| RqliteClient.SerializeStmts | logdevice/common/RqliteClient.cpp:107-122 | the body is "[" + the statements, each in double quotes, comma-separated in order + "]" (`StmtsBody`) |
| RqliteClient.ParseSerialized | logdevice/common/RqliteClient.cpp:107-122 | the body parses back to the statements whenever none contains a double quote (nothing is escaped) |
| RqliteClient.ExtractExecResult | logdevice/common/RqliteClient.cpp:151-169 | a result object with only error/last_insert_id/rows_affected/time keys fills those fields; any other key makes it fail |
| RqliteClient.ExtractExecuteResults | logdevice/common/RqliteClient.cpp:142-176 | return code and results agree with `DecodeExecTop`: one result per element of "results" appended in order, -1 at the first unknown key, other top-level keys ignored |
| RqliteClient.ExecuteReplyRoundTrip | logdevice/common/RqliteClient.cpp:142-176 | decoding rqlite's execute reply gives back one result per statement, in order, with return code 0 |
| RqliteClient.UnknownKeyFails | logdevice/common/RqliteClient.cpp:162-164 | an unknown key in the k-th result makes the extraction fail, keeping exactly the results before it |
| RqliteClient.CollectStrings | logdevice/common/RqliteClient.cpp:209-220 | the "columns"/"types" loops keep every string, in order |
| RqliteClient.CollectRows | logdevice/common/RqliteClient.cpp:221-229 | the "values" loops keep every row and every cell, in order |
| RqliteClient.ExtractQueryResult | logdevice/common/RqliteClient.cpp:203-234 | a result object fills error/columns/types/values/time; any other key makes it fail |
| RqliteClient.ExtractQueryResults | logdevice/common/RqliteClient.cpp:196-241 | return code and results agree with `DecodeQueryTop`: order of results, columns, types and rows kept; -1 at an unknown key |
| RqliteClient.QueryReplyRoundTrip | logdevice/common/RqliteClient.cpp:196-241 | decoding rqlite's query reply gives back one result per select, in order |
| RqliteClient.Client.Execute | logdevice/common/RqliteClient.cpp:31-65 | a reachable server runs the statements and the caller gets one decoded result per statement; otherwise nothing changes and the caller gets exactly one result with error "connection error" |
| RqliteClient.Client.Query | logdevice/common/RqliteClient.cpp:67-96 | a reachable server answers every select in order; otherwise exactly one result with error "connection error" |
| RqliteEpochStore.SplitZnodePath | logdevice/server/epoch_store/RqliteEpochStore.cpp:417-427 | succeeds exactly when the path has three '/'-separated items |
| RqliteEpochStore.SplitZnodePathRoundTrip | logdevice/server/epoch_store/RqliteEpochStore.cpp:417-427 | "/logid/column" splits back into log id and column |
| RqliteEpochStore.ReadResultOf | logdevice/server/epoch_store/RqliteEpochStore.cpp:181-215 | no error and no row is NOTFOUND; an error starting "no such table" is NOTFOUND; any other error FAILED; otherwise OK with the hex-decoded value and the version |
| RqliteEpochStore.Store.ReadFrom | logdevice/server/epoch_store/RqliteEpochStore.cpp:181-215 | the callback builds exactly `ReadResultOf` of the query result |
| RqliteEpochStore.Store.ReadTable | logdevice/server/epoch_store/RqliteEpochStore.cpp:168-219 | the read equals `ReadTableSpec` over the database: a missing table or row is NOTFOUND, an unreachable server FAILED, a row its decoded value and version |
| RqliteEpochStore.WriteStatus | logdevice/server/epoch_store/RqliteEpochStore.cpp:147-160 | error → FAILED, 0 rows → AGAIN, 1 row → OK, anything else UNKNOWN (each as an iff) |
| RqliteEpochStore.Store.WriteTable | logdevice/server/epoch_store/RqliteEpochStore.cpp:121-166 | tables and status are `WriteTableSpec`: the row moves to the new value at version v+1 exactly when its version is still v |
| RqliteEpochStore.WriteRun | logdevice/server/epoch_store/RqliteEpochStore.cpp:128-160 | the conditional update run in a transaction has the effect and status `WriteTableSpec` states |
| RqliteEpochStore.Store.ProvisionStatus | logdevice/server/epoch_store/RqliteEpochStore.cpp:103-116 | OK iff no statement result carries an error, else FAILED |
| RqliteEpochStore.Store.ProvisionLogRows | logdevice/server/epoch_store/RqliteEpochStore.cpp:62-119 | tables and status are `ProvisionSpec`: the three rows are created at version 0 or, if any exists, nothing changes and the status is FAILED |
| RqliteEpochStore.ProvisionRun | logdevice/server/epoch_store/RqliteEpochStore.cpp:62-119 | the six statements in one transaction have exactly the effect `ProvisionSpec` states |
| RqliteEpochStore.CreatesRun | logdevice/server/epoch_store/RqliteEpochStore.cpp:70-84 | the three `create table if not exists` succeed and keep every existing table |
| RqliteEpochStore.InsertsRun | logdevice/server/epoch_store/RqliteEpochStore.cpp:85-100 | the three inserts all succeed, or the first duplicate fails the transaction |
| RqliteEpochStore.RunUntilFailureStep | logdevice/server/epoch_store/RqliteEpochStore.cpp:116-118 | in a transaction a failing statement ends the run; otherwise the rest runs on the new tables |
| RqliteEpochStore.AnyFailedAfterDone | logdevice/server/epoch_store/RqliteEpochStore.cpp:103-110 | leading successes do not change whether a transaction failed |
| RqliteEpochStore.AnyFailedErrors | logdevice/server/epoch_store/RqliteEpochStore.cpp:103-110 | a transaction failed exactly when some result the callback sees carries an error |
| RqliteEpochStore.ReadAfterWrite | logdevice/server/epoch_store/RqliteEpochStore.cpp:121-219 | after a successful write the row reads back as the value written, at version v+1 |
| RqliteEpochStore.FailedWriteChangesNothing | logdevice/server/epoch_store/RqliteEpochStore.cpp:147-160 | a write that does not succeed leaves every table unchanged; it succeeds iff the row exists at the version read |
| RqliteEpochStore.ReadAfterProvision | logdevice/server/epoch_store/RqliteEpochStore.cpp:62-119 | after provisioning, the metadata reads back as the value at version 0 and both last clean epochs as empty at version 0 |
| RqliteEpochStore.RequestReadsProvisionedRow | logdevice/server/epoch_store/RqliteEpochStore.cpp:62-119 | a request whose path names its log by the decimal id reads, after a successful provisioning, its own row at version 0: the value for the epoch metadata, empty otherwise |
| RqliteEpochStore.ProvisionAllOrNothing | logdevice/server/epoch_store/RqliteEpochStore.cpp:62-119 | provisioning succeeds iff none of the three rows exists; when it fails nothing changes |
| RqliteEpochStore.WriteAll | logdevice/server/epoch_store/RqliteEpochStore.cpp:121-166 | writers applied in turn each get one status |
| RqliteEpochStore.AtMostOneWriterWins | logdevice/server/epoch_store/RqliteEpochStore.cpp:141-160 | of any number of writers that read the same version, at most one gets OK |
| RqliteEpochStore.LosersGetAgain | logdevice/server/epoch_store/RqliteEpochStore.cpp:141-160 | once the row has moved past the version read, every writer holding it gets AGAIN and changes nothing |
| RqliteEpochStore.Store.OnReadTableComplete | logdevice/server/epoch_store/RqliteEpochStore.cpp:240-333 | tables and completion are `CompleteSpec`: a failed read or failed deserialization completes with its status and writes nothing; PROVISION provisions, MODIFY writes at the read version, STOP/FAILED complete with the request's error |
| RqliteEpochStore.Store.RunRequest | logdevice/server/epoch_store/RqliteEpochStore.cpp:221-238 | tables and completion are `RequestSpec`: the read of the request's row followed by `CompleteSpec`, starting from a new log's metadata |
| RqliteEpochStore.Store.SetLastCleanEpoch | logdevice/server/epoch_store/RqliteEpochStore.cpp:353-372 | an invalid tail record, or one with an offset within the epoch, gives -1/INVALID_PARAM, no completion and unchanged tables; otherwise 0/OK with the tables and completion of the whole request (`RequestSpec`) |
| RqliteEpochStore.Store.CreateOrUpdateMetaData | logdevice/server/epoch_store/RqliteEpochStore.cpp:374-394 | log ids outside (LOGID_INVALID, LOGID_MAX] give -1/INVALID_PARAM, no completion and unchanged tables; otherwise 0/OK with the tables and completion of the whole request (`RequestSpec`) |
| RqliteEpochStore.Store.Shutdown | logdevice/server/epoch_store/RqliteEpochStore.cpp:50-56 | from then on SHUTDOWN completions are dropped |
| EpochStoreRequest.Touch | logdevice/server/epoch_store/RqliteEpochStore.cpp:293-294 | touching bumps the metadata version by one and keeps the payload |
| EpochStoreRequest.PostRequestCompletion | logdevice/server/epoch_store/ZookeeperEpochStore.cpp:449-460 | the completion is dropped iff the status is SHUTDOWN and the store is shutting down; otherwise it carries the status and metadata |
| EpochStoreRequest.AfterReadWrites | logdevice/server/epoch_store/ZookeeperEpochStore.cpp:384-441 | a value is written only after PROVISION or MODIFY; it is exactly the first `size` bytes of the buffer the request composed from the touched metadata, with 0 <= size < the buffer length |
| EpochStoreRequest.AfterReadStops | logdevice/server/epoch_store/ZookeeperEpochStore.cpp:384-410 | STOP and FAILED complete with the request's own error and write nothing |
| EpochStoreRequest.AfterReadRejectsBadSize | logdevice/server/epoch_store/ZookeeperEpochStore.cpp:411-425 | a composed size < 0 or ≥ the buffer completes with INTERNAL instead of writing |
| ZookeeperEpochStore.CompletionStatus | logdevice/server/epoch_store/ZookeeperEpochStore.cpp:72-126 | never VERSION_MISMATCH, which becomes AGAIN; ZINVALIDSTATE is NOTCONN/ACCESS/FAILED by session state |
| ZookeeperEpochStore.CompletionOfOwnCodes | logdevice/server/epoch_store/ZookeeperEpochStore.cpp:72-126 | ZOK → OK, ZNONODE → NOTFOUND, ZNODEEXISTS → EXISTS, ZBADVERSION → AGAIN, and only those codes give OK and NOTFOUND |
| ZookeeperEpochStore.MetaDataLogSharesZnode | logdevice/server/epoch_store/ZookeeperEpochStore.cpp:128-134 | a metadata log and its data log map to the same root/&lt;data logid&gt; znode |
| ZookeeperEpochStore.Store.ProvisionLogZnodes | logdevice/server/epoch_store/ZookeeperEpochStore.cpp:136-225 | znodes and completion are `ProvisionSpec`: the four creates in one multi-op, retried once after creating a missing root |
| ZookeeperEpochStore.RootPresentNoNoNode | logdevice/server/epoch_store/ZookeeperEpochStore.cpp:160-200 | with the root present the provisioning multi-op cannot fail for a missing parent |
| ZookeeperEpochStore.NoNoNodeUnderRoot | logdevice/server/epoch_store/ZookeeperEpochStore.cpp:160-200 | the same for any znode set containing the root |
| ZookeeperEpochStore.ChildrenNoNoNode | logdevice/server/epoch_store/ZookeeperEpochStore.cpp:160-200 | creates of children of a present znode never fail for a missing parent |
| ZookeeperEpochStore.ProvisionRetry | logdevice/server/epoch_store/ZookeeperEpochStore.cpp:200-222 | a NOTFOUND multi-op followed by a root creation that succeeded or found the root happens only with no fault and the root missing, and provisioning then equals provisioning on the tree with the root |
| ZookeeperEpochStore.ProvisionRetryEnds | logdevice/server/epoch_store/ZookeeperEpochStore.cpp:200-222 | after the root is created or found, the repeated multi-op is not NOTFOUND, so the recursive retry ends |
| ZookeeperEpochStore.Store.LegacyWriteZnode | logdevice/server/epoch_store/ZookeeperEpochStore.cpp:244-262 | a single setData conditional on the legacy version read |
| ZookeeperEpochStore.Store.DoubleWriteZnode | logdevice/server/epoch_store/ZookeeperEpochStore.cpp:264-294 | both znodes in one multi-op, each conditional on its version |
| ZookeeperEpochStore.Store.WriteZnode | logdevice/server/epoch_store/ZookeeperEpochStore.cpp:227-242 | `WriteSpec`: a double write only with double writing on and a known migration version, else a single set |
| ZookeeperEpochStore.DoubleWriteAllOrNothing | logdevice/server/epoch_store/ZookeeperEpochStore.cpp:264-294 | the double write changes both znodes (each to its version + 1) exactly when both versions match, otherwise nothing |
| ZookeeperEpochStore.StaleWriteGetsAgain | logdevice/server/epoch_store/ZookeeperEpochStore.cpp:227-294 | a write on a version no longer current gets AGAIN and changes nothing |
| ZookeeperEpochStore.SecondWriterGetsAgain | logdevice/server/epoch_store/ZookeeperEpochStore.cpp:244-262 | of two writers that read the same version, after the first succeeds the second gets AGAIN |
| ZookeeperEpochStore.Store.OnGetZnodeComplete | logdevice/server/epoch_store/ZookeeperEpochStore.cpp:296-447 | corrected — see Findings row 4: znodes and completion follow the corrected `GetZnodePlan` then its provisioning or write |
| ZookeeperEpochStore.Store.DecideAfterReads | logdevice/server/epoch_store/ZookeeperEpochStore.cpp:296-432 | corrected — see Findings row 4: the checks on the two reads and the request's steps give exactly the corrected `GetZnodePlan`, whose properties the lemmas below state |
| ZookeeperEpochStore.Store.CarryOut | logdevice/server/epoch_store/ZookeeperEpochStore.cpp:427-446 | a finished plan completes without touching the znodes; otherwise the znodes and completion are those of provisioning or of the write |
| ZookeeperEpochStore.MigrationMismatchIsInternal | logdevice/server/epoch_store/ZookeeperEpochStore.cpp:323-335 | legacy and migration reads that both succeeded but disagree complete with INTERNAL |
| ZookeeperEpochStore.FailedReadNeverCompletesOk | logdevice/server/epoch_store/ZookeeperEpochStore.cpp:306-322 | a failed legacy or migration read completes with a non-OK status and writes nothing |
| ZookeeperEpochStore.IgnoredMigrationDisablesDoubleWrite | logdevice/server/epoch_store/ZookeeperEpochStore.cpp:353-358 | an empty migration znode the request may not migrate switches double writing off and drops the migration version |
| ZookeeperEpochStore.DoubleWriteOnlyWithMigrationVersion | logdevice/server/epoch_store/ZookeeperEpochStore.cpp:227-242 | a double write happens only with double writing on and a migration znode read; its versions are the ones read |
| ZookeeperEpochStore.Store.RunRequest | logdevice/server/epoch_store/ZookeeperEpochStore.cpp:493-524 | corrected — see Findings row 4: both reads, then the corrected `GetZnodePlan` on the metadata of a new log and its outcome (`RequestSpec`) |
| ZookeeperEpochStore.Store.SetLastCleanEpoch | logdevice/server/epoch_store/ZookeeperEpochStore.cpp:531-550 | an invalid tail record, or one with an offset within the epoch, gives -1/INVALID_PARAM, no completion and unchanged znodes; otherwise 0/OK with the znodes and completion of the whole request (`RequestSpec`, corrected — see Findings row 4) |
| ZookeeperEpochStore.Store.CreateOrUpdateMetaData | logdevice/server/epoch_store/ZookeeperEpochStore.cpp:552-572 | log ids outside (LOGID_INVALID, LOGID_MAX] give -1/INVALID_PARAM, no completion and unchanged znodes; otherwise 0/OK with the znodes and completion of the whole request (`RequestSpec`, corrected — see Findings row 4) |
| ZookeeperEpochStore.Store.Shutdown | logdevice/server/epoch_store/ZookeeperEpochStore.cpp:60-66 | from then on SHUTDOWN completions are dropped |
| ZookeeperEpochStore.MigrationReadFailureReportedAsOk | logdevice/server/epoch_store/ZookeeperEpochStore.cpp:313-318 | as written a lost migration read completes with OK; the corrected plan completes with the failure |
| RqliteConfigStore.SplitKey | logdevice/common/RqliteVersionedConfigStore.cpp:363-374 | succeeds exactly when the key has two '/'-separated items |
| RqliteConfigStore.SplitKeyRoundTrip | logdevice/common/RqliteVersionedConfigStore.cpp:363-374 | "table/row" splits back into (table, row) |
| RqliteConfigStore.MatchError | logdevice/common/RqliteVersionedConfigStore.cpp:350-360 | true iff the candidate is a prefix of the error |
| RqliteConfigStore.NoTable | logdevice/common/RqliteVersionedConfigStore.cpp:341-348 | true iff the error starts with "no such table" |
| RqliteConfigStore.ToStatus | logdevice/common/RqliteVersionedConfigStore.cpp:313-328 | OK iff no error and rows; NOTFOUND iff no error and no rows, or a "no such table" error; FAILED iff any other error |
| RqliteConfigStore.ConfigStore.GetValueAndVersion | logdevice/common/RqliteVersionedConfigStore.cpp:330-339 | the value is the hex-decoded value column, the version the version column |
| RqliteConfigStore.ConfigStore.ReadRowOf | logdevice/common/RqliteVersionedConfigStore.cpp:20-40 | the select's status and row agree with `ReadRow` over the database |
| RqliteConfigStore.ConfigStore.GetConfig | logdevice/common/RqliteVersionedConfigStore.cpp:20-64 | a non-OK read is passed through; with a base version, no extractable version → BADMSG, version ≤ base → UPTODATE, else OK with the value |
| RqliteConfigStore.ConfigStore.GetLatestConfig | logdevice/common/RqliteVersionedConfigStore.cpp:66-70 | the row's status and value, with no version check |
| RqliteConfigStore.UpdateStatus | logdevice/common/RqliteVersionedConfigStore.cpp:212-221 | error → FAILED, 0 rows → VERSION_MISMATCH, 1 row → OK, else INTERNAL (each as an iff) |
| RqliteConfigStore.ConfigStore.WriteModifiedValue | logdevice/common/RqliteVersionedConfigStore.cpp:185-226 | after shutdown SHUTDOWN; otherwise `WriteRowSpec` (row version v → v+1 iff still v), the callback gets the new version only on OK |
| RqliteConfigStore.InsertStatus | logdevice/common/RqliteVersionedConfigStore.cpp:273-289 | corrected: VERSION_MISMATCH iff the insert failed on the unique key, OK iff it inserted one row, FAILED without a second result |
| RqliteConfigStore.ConfigStore.WriteModifiedValueNew | logdevice/common/RqliteVersionedConfigStore.cpp:228-294 | corrected — see Findings rows 1-2: after shutdown SHUTDOWN; otherwise `InsertRowSpec`: the table is created if missing and the row inserted at version 0, or VERSION_MISMATCH if it exists |
| RqliteConfigStore.NewRowRun | logdevice/common/RqliteVersionedConfigStore.cpp:228-294 | the create and the insert, run one by one, have the effect and status `InsertRowSpec` states |
| RqliteConfigStore.MutatorArg | logdevice/common/RqliteVersionedConfigStore.cpp:106-130 | the mutator receives nothing iff the row was NOTFOUND, else the value read |
| RqliteConfigStore.ConfigStore.ReadModifyWriteConfig | logdevice/common/RqliteVersionedConfigStore.cpp:72-183 | corrected — see Findings rows 1-2 for the insert: after shutdown every call is SHUTDOWN; otherwise `RmwSpec`: read, mutate, extract the version, update or insert |
| RqliteConfigStore.ConfigStore.Shutdown | logdevice/common/RqliteVersionedConfigStore.cpp:296-307 | the store is signalled and completed as shut down |
| RqliteConfigStore.RmwReadsBack | logdevice/common/RqliteVersionedConfigStore.cpp:72-183 | after a successful read-modify-write the row reads back as the new value at the next row version (0 for a new row), and the callback gets the value's own version |
| RqliteConfigStore.RmwWritesOnlyAfterMutation | logdevice/common/RqliteVersionedConfigStore.cpp:72-148 | nothing is written unless the read was OK/NOTFOUND, the mutator succeeded and the version could be extracted; a mutator failure is returned as is; a bad version is INVALID_PARAM |
| RqliteConfigStore.NonIncreasingVersionIsWritten | logdevice/common/RqliteVersionedConfigStore.cpp:151-179 | a new value whose version does not increase is written all the same |
| RqliteConfigStore.SecondUpdateMismatches | logdevice/common/RqliteVersionedConfigStore.cpp:185-226 | of two writers on the same row version, after the first succeeds the second gets VERSION_MISMATCH |
| RqliteConfigStore.SecondInsertMismatches | logdevice/common/RqliteVersionedConfigStore.cpp:228-294 | of two writers that found the row missing, after the first inserts it the second gets VERSION_MISMATCH |
| RqliteConfigStore.ConcurrentInsertReportedAsFailed | logdevice/common/RqliteVersionedConfigStore.cpp:273-284 | with the row inserted concurrently, as written the status is FAILED; corrected it is VERSION_MISMATCH |
| RqliteConfigStore.ConnectionErrorHasOneResult | logdevice/common/RqliteVersionedConfigStore.cpp:273-285 | an unreachable server delivers one result, so there is no second result to read; corrected, the status is FAILED |
| RqliteConfig.Rendered | logdevice/common/configuration/RqliteConfig.cpp:18-31 | one rendered address per quorum member, in order |
| RqliteConfig.MakeQuorumString | logdevice/common/configuration/RqliteConfig.cpp:18-31 | the loop builds `QuorumString` |
| RqliteConfig.QuorumStringIsJoin | logdevice/common/configuration/RqliteConfig.cpp:18-31 | the quorum string is the rendered addresses joined with ',' (no leading or trailing comma; "" for none) |
| RqliteConfig.QuorumStringSplits | logdevice/common/configuration/RqliteConfig.cpp:18-31 | splitting the quorum string at ',' gives back the rendered addresses |
| RqliteConfig.FromQuorum | logdevice/common/configuration/RqliteConfig.h:30-33 | the ip scheme and the quorum string of the addresses |
| RqliteConfig.Lookup | logdevice/common/configuration/RqliteConfig.cpp:44-45 | finds a member iff one has the key, and returns the value of such a member |
| RqliteConfig.FromJson | logdevice/common/configuration/RqliteConfig.cpp:33-74 | every failure is INVALID_CONFIG; a non-object fails; a success has an empty quorum, non-empty scheme and quorum string, and the uri is exactly scheme + "://" + quorum string |
| RqliteConfig.FromJsonParsesUri | logdevice/common/configuration/RqliteConfig.cpp:55-73 | a uri "scheme://quorum" with a ':'-free scheme parses into that scheme and quorum string |
| RqliteConfig.ToJson | logdevice/common/configuration/RqliteConfig.cpp:76-80 | an object whose rqlite_uri is only the quorum string |
| RqliteConfig.ToJsonDropsScheme | logdevice/common/configuration/RqliteConfig.h:76-79 | without "://" in the quorum string, fromJson(toFollyDynamic()) fails: the conversion is not a round trip |
| RqliteConfig.IpConfigIsNotReadBack | logdevice/common/configuration/RqliteConfig.cpp:76-80 | the ip config of one address is not read back from what it writes |
| RqliteConfig.NoDelimiterWithoutSlash | logdevice/common/configuration/RqliteConfig.cpp:55-60 | a text without '/' contains no "://" |
| RqliteConfig.Equal | logdevice/common/configuration/RqliteConfig.cpp:82-86 | equal iff quorum, quorum string and scheme all agree |
| CheckpointedReaderBase.Max | logdevice/lib/checkpointing/CheckpointedReaderBase.cpp:118-122 | the larger of two LSNs |
| CheckpointedReaderBase.SetLastLsn | logdevice/lib/checkpointing/CheckpointedReaderBase.cpp:118-122 | the log's entry becomes max(old or LSN_INVALID, lsn), so it never decreases; other logs are untouched |
| CheckpointedReaderBase.CheckpointedReader.SetLastLsnInMap | logdevice/lib/checkpointing/CheckpointedReaderBase.cpp:118-122 | the last-read map becomes `SetLastLsn` of the old one |
| CheckpointedReaderBase.NewCheckpoints | logdevice/lib/checkpointing/CheckpointedReaderBase.cpp:97-116 | no logs → the whole map; a listed log missing → INVALID_OPERATION; else exactly the listed logs' entries |
| CheckpointedReaderBase.CheckpointedReader.GetNewCheckpoints | logdevice/lib/checkpointing/CheckpointedReaderBase.cpp:97-116 | the loop's result is `NewCheckpoints` of the last-read map |
| CheckpointedReaderBase.Upcoming | logdevice/lib/checkpointing/CheckpointedReaderBase.cpp:25-43 | the store's replies from the n-th call on |
| CheckpointedReaderBase.WithRetries | logdevice/lib/checkpointing/CheckpointedReaderBase.cpp:25-43 | between 1 and num_retries calls, every one before the last failed, and the status is the last call's; a failure means all num_retries were used; UNKNOWN and no call for num_retries ≤ 0 |
| CheckpointedReaderBase.WithRetriesOk | logdevice/lib/checkpointing/CheckpointedReaderBase.cpp:25-43 | the retried write returns OK iff one of the first num_retries replies is OK |
| CheckpointedReaderBase.CheckpointedReader.SyncWriteCheckpoints | logdevice/lib/checkpointing/CheckpointedReaderBase.cpp:25-43 | status and number of store calls are `WithRetries`; the checkpoints are stored only on OK |
| CheckpointedReaderBase.FirstReplyOkWritesOnce | logdevice/lib/checkpointing/CheckpointedReaderBase.cpp:25-43 | a first successful reply means one call and OK |
| CheckpointedReaderBase.PersistentFailureExhaustsRetries | logdevice/lib/checkpointing/CheckpointedReaderBase.cpp:25-43 | failing replies use every retry and return the last status |
| CheckpointedReaderBase.CheckpointedReader.SyncWriteCheckpointsFor | logdevice/lib/checkpointing/CheckpointedReaderBase.cpp:75-83 | a selection error is returned without calling the store; otherwise the retried write of the selection |
| CheckpointedReaderBase.CheckpointedReader.AsyncWriteCheckpointsFor | logdevice/lib/checkpointing/CheckpointedReaderBase.cpp:85-95 | a selection error reaches the callback without calling the store; otherwise one update, whose status the callback gets |
| SyncCheckpointedReader.NextLsn | logdevice/lib/checkpointing/SyncCheckpointedReaderImpl.cpp:32-36 | c + 1, wrapping to LSN_INVALID past LSN_MAX |
| SyncCheckpointedReader.CheckpointedSyncReader.StartReading | logdevice/lib/checkpointing/SyncCheckpointedReaderImpl.cpp:56-64 | erases the log's last-read entry, then starts the inner reader |
| SyncCheckpointedReader.CheckpointedSyncReader.StartReadingFromCheckpoint | logdevice/lib/checkpointing/SyncCheckpointedReaderImpl.cpp:26-46 | a stored checkpoint c resumes at c+1; NOTFOUND starts at `start`; any other store error gives -1 and `err`, starting nothing |
| SyncCheckpointedReader.CheckpointedSyncReader.StartReadingFromCheckpointAtInvalid | logdevice/lib/checkpointing/SyncCheckpointedReaderImpl.cpp:48-54 | the same with LSN_INVALID as the fallback start |
| SyncCheckpointedReader.CheckpointedSyncReader.Read | logdevice/lib/checkpointing/SyncCheckpointedReaderImpl.cpp:87-105 | returns the inner reader's count unchanged; a count ≥ 0 notes each delivered record's LSN in order, a negative one (a gap) notes the gap's hi unless it is LSN_MAX |
| SyncCheckpointedReader.AfterRecordsOnlyGrows | logdevice/lib/checkpointing/SyncCheckpointedReaderImpl.cpp:87-105 | reading records only adds logs and never lowers an entry, and each record's log ends at least at its LSN |
| AppendProbeController.Probe | logdevice/common/AppendProbeController.cpp:16-38 | false for an absent node; true for LAST_APPEND_FAILED; now < healthy_at for RECOVERING; false for HEALTHY |
| AppendProbeController.Controller.ShouldProbe | logdevice/common/AppendProbeController.cpp:16-38 | the answer is `Probe` of the node map |
| AppendProbeController.AfterSuccess | logdevice/common/AppendProbeController.cpp:40-86 | LAST_APPEND_FAILED → RECOVERING until now + interval; RECOVERING past healthy_at → entry removed; otherwise unchanged; other nodes untouched |
| AppendProbeController.Controller.OnSuccess | logdevice/common/AppendProbeController.cpp:40-86 | the node map becomes `AfterSuccess` of the old one |
| AppendProbeController.AfterFailure | logdevice/common/AppendProbeController.cpp:88-119 | PREEMPTED/ACCESS/NOTINSERVERCONFIG change nothing; any other failure inserts or marks the node LAST_APPEND_FAILED; other nodes untouched |
| AppendProbeController.Controller.OnFailure | logdevice/common/AppendProbeController.cpp:88-119 | the node map becomes `AfterFailure` of the old one |
| AppendProbeController.AfterGarbageCollect | logdevice/common/AppendProbeController.cpp:121-131 | removes the entry iff it is HEALTHY |
| AppendProbeController.Controller.GarbageCollectIfHealthy | logdevice/common/AppendProbeController.cpp:121-131 | the node map becomes `AfterGarbageCollect` of the old one |
| AppendProbeController.TransitionsKeepNoHealthyEntries | logdevice/common/AppendProbeController.cpp:40-119 | success and failure never leave an entry for a HEALTHY node |
| AppendProbeController.ProbedAfterFailure | logdevice/common/AppendProbeController.cpp:88-119 | after a failure that counts, the node is probed at any time |
| AppendProbeController.RecoveryTakesTheInterval | logdevice/common/AppendProbeController.cpp:58-84 | after failure then success at t0, the node is probed and stays RECOVERING before t0 + interval, and is not probed and is removed on a later success after it |
| AppendProbeController.GarbageCollectTouchesOnlyItsNode | logdevice/common/AppendProbeController.cpp:121-131 | another node's entry is never changed, and its probing is unaffected |
| ServerSettings.SplitTags | logdevice/server/ServerSettings.cpp:45-52 | the split_step loop builds `AddTags` of the text: key before the first ':', value up to the next ',', later keys overwrite |
| ServerSettings.ParseTagsAsWritten | logdevice/server/ServerSettings.cpp:29-55 | "" → empty map; text failing the pattern → InvalidTags; otherwise the pairs |
| ServerSettings.ParseTags | logdevice/server/ServerSettings.cpp:29-55 | corrected: the same, with every key non-empty and free of ':' |
| ServerSettings.SplitStepAfterFree | logdevice/server/ServerSettings.cpp:49-50 | split_step at the first delimiter gives the text before and after it |
| ServerSettings.AddTagsPair | logdevice/server/ServerSettings.cpp:48-52 | one "key:value," step stores the pair and continues with the rest |
| ServerSettings.AddTagsLast | logdevice/server/ServerSettings.cpp:48-52 | the last "key:value" stores the pair and ends |
| ServerSettings.SplitFirst | logdevice/server/ServerSettings.cpp:45-52 | the text is its first comma-separated item then the rest |
| ServerSettings.FirstPairKey | logdevice/server/ServerSettings.cpp:45-52 | the first pair of a well-formed list has a good key |
| ServerSettings.TagListRest | logdevice/server/ServerSettings.cpp:45-52 | the rest of a well-formed list is well formed |
| ServerSettings.ParsedTagKeys | logdevice/server/ServerSettings.cpp:45-52 | every key parsed from a well-formed list is non-empty and free of ':' and ',' |
| ServerSettings.TagPatternAdmitsEmptyKey | logdevice/server/ServerSettings.cpp:35-43 | ":x:y" passes the pattern and yields the empty key, which the corrected check rejects |
| ServerSettings.AddTagsTwoPairs | logdevice/server/ServerSettings.cpp:48-52 | two pairs store both, the second last |
| ServerSettings.LaterTagWins | logdevice/server/ServerSettings.cpp:51 | a later duplicate key overwrites the earlier value |
| ServerSettings.ValidateStorageThreads | logdevice/server/ServerSettings.cpp:59-71 | an error iff value < min or value > 10000 |
| ServerSettings.ValidateSequencers | logdevice/server/ServerSettings.cpp:73-85 | "all"/"lazy"/"none" map to ALL/LAZY/NONE; anything else is an error |
| ServerSettings.ParseRoles | logdevice/server/ServerSettings.cpp:87-104 | on success each bit is set iff its role occurs; the first other token is the error |
| ServerSettings.ParseValuesPerNetworkPriority | logdevice/server/ServerSettings.cpp:106-135 | "" → empty map; otherwise the `PerPriority` fold: each mapping must split into exactly two parts with a parsable priority and value |
| ServerSettings.LastMappingWins | logdevice/server/ServerSettings.cpp:106-135 | a later mapping for the same priority overwrites an earlier one |
| ServerSettings.KeptAfter | logdevice/server/ServerSettings.cpp:106-135 | a successful fold keeps every entry not overwritten later |
| ServerSettings.ParseLoglevelOverrides | logdevice/server/ServerSettings.cpp:236-265 | empty items are skipped; success iff every item is module:level with a valid level; each module maps to the level of the last item naming it (`LastOverrideWins`); on failure the first invalid item decides the error, format before level |
| ServerSettings.ParseOverrideItems | logdevice/server/ServerSettings.cpp:241-263 | the loop over the non-empty items returns what the `Overrides` fold gives from the empty map |
| ServerSettings.OverridesOk | logdevice/server/ServerSettings.cpp:241-263 | the fold succeeds exactly when every item is module:level with a level other than NONE |
| ServerSettings.OverridesFirstError | logdevice/server/ServerSettings.cpp:244-260 | a failed fold reports the error of the first invalid item, every earlier item being valid |
| ServerSettings.OverridesKeys | logdevice/server/ServerSettings.cpp:261 | a successful fold maps every item's module to a real level and adds no other module |
| ServerSettings.OverridesKept | logdevice/server/ServerSettings.cpp:261 | a module no later item names keeps its level |
| ServerSettings.OverridesLastWins | logdevice/server/ServerSettings.cpp:261 | each module ends with the level of the last item naming it |
| ServerSettings.ValidateCommandConnLimit | logdevice/server/ServerSettings.cpp:216-226 | an error iff the limit is not positive |
| ServerSettings.ValidateShutdownTimeout | logdevice/server/ServerSettings.cpp:379-391 | an error iff the timeout is not positive |
| ServerSettings.ValidateFdLimit | logdevice/server/ServerSettings.cpp:402-413 | an error iff the limit is negative |
| ServerSettings.ValidateNumReservedFds | logdevice/server/ServerSettings.cpp:415-422 | an error iff the number is negative |
| ServerSettings.ValidateSleepSecs | logdevice/server/ServerSettings.cpp:532-539 | an error iff the number of seconds is negative |
| AdminApi.ToUnsigned | logdevice/admin/AdminAPIHandler.cpp:229-230 | non-negative values are kept; negative ones become ≥ 2^63, congruent mod 2^64 |
| AdminApi.ToSigned | logdevice/admin/AdminAPIHandler.cpp:250 | the int64 cast, inverse of ToUnsigned |
| AdminApi.TakeLogTreeSnapshot | logdevice/admin/AdminAPIHandler.cpp:209-293 | NotSupported when LCM or snapshotting is off; then StaleVersion with the server version; then NodeNotReady; success iff the snapshot is OK or UPTODATE, else OperationError |
| AdminApi.TakeMaintenanceLogSnapshot | logdevice/admin/AdminAPIHandler.cpp:295-376 | NotSupported first; NodeNotReady before StaleVersion; only OK succeeds |
| AdminApi.SnapshotCheckOrderDiffers | logdevice/admin/AdminAPIHandler.cpp:243-262 | a stale, not-loaded state machine is StaleVersion for the log tree but NodeNotReady for maintenance |
| AdminApi.UpToDateSnapshot | logdevice/admin/AdminAPIHandler.cpp:264-279 | UPTODATE succeeds for the log tree and fails for maintenance |
| AdminApi.ZeroMinimumNeverStale | logdevice/admin/AdminAPIHandler.cpp:243 | min_version 0 disables the version check |
| AdminApi.NegativeMinimumIsHuge | logdevice/admin/AdminAPIHandler.cpp:229-230 | a negative min_version reads as at least 2^63 |
| AdminApi.ToInt16 | logdevice/admin/AdminAPIHandler.cpp:393 | the uint16 key cast to int16, congruent mod 2^16 |
| AdminApi.Converted | logdevice/admin/AdminAPIHandler.cpp:392-395 | one thrift counter per counter |
| AdminApi.ConvertedElements | logdevice/admin/AdminAPIHandler.cpp:392-395 | each converted counter has the cast key and value of its counter |
| AdminApi.EmptyFilterKeepsAll | logdevice/admin/AdminAPIHandler.cpp:385 | an empty filter keeps every counter |
| AdminApi.FilterKeepsListedKeys | logdevice/admin/AdminAPIHandler.cpp:385-391 | with a filter, a counter is kept iff its key is listed |
| AdminApi.SelectedIsSubsequence | logdevice/admin/AdminAPIHandler.cpp:384-396 | the kept counters are the input's counters at strictly increasing positions, so their order is kept |
| AdminApi.SelectedFromInput | logdevice/admin/AdminAPIHandler.cpp:384-396 | every kept counter comes from the input |
| AdminApi.SetLogGroupCustomCountersResponse | logdevice/admin/AdminAPIHandler.cpp:378-399 | the response is the converted filtered counters |
| AdminApi.SettingsUpdater.SetFromAdminCmd | logdevice/admin/AdminAPIHandler.cpp:159-160 | an accepted override is recorded; a rejected one leaves the overrides unchanged |
| AdminApi.SettingsUpdater.UnsetFromAdminCmd | logdevice/admin/AdminAPIHandler.cpp:174 | the override is removed |
| AdminApi.AdminHandler.ApplySettingOverride | logdevice/admin/AdminAPIHandler.cpp:145-190 | overrides, TTL requests and error follow `OverrideSpec` |
| AdminApi.NonPositiveTtlChangesNothing | logdevice/admin/AdminAPIHandler.cpp:152-155 | ttl ≤ 0 is InvalidRequest and applies nothing |
| AdminApi.OverrideNeverOutlivesItsTtl | logdevice/admin/AdminAPIHandler.cpp:157-187 | an override stays applied only if its TTL request was posted; a failed post rolls it back |
| AdminApi.BiggestScope | logdevice/admin/AdminAPIHandler.cpp:96 | the biggest scope that carries a replication factor |
| AdminApi.ToleratedFailures | logdevice/admin/AdminAPIHandler.cpp:94-98 | the domain is the biggest scope, and count + 1 is its replication |
| AdminApi.ToleratedFailuresLeaveACopy | logdevice/admin/AdminAPIHandler.cpp:94-98 | losing `count` domains still leaves a copy |
| AdminApi.GetStatus | logdevice/admin/AdminAPIHandler.cpp:61-73 | WARNING iff some shard is in fail-safe mode, else the base status |
| Debug.Rank | logdevice/include/debug.h:14-23 | levels take the values 0..7 in declaration order: NONE alone is lowest, SPEW alone highest |
| Debug.NoteError | logdevice/common/debug.h:142-146 | the hook is called iff it is set and the level is at most INFO |
| Debug.DebugAndSpewNeverCounted | logdevice/common/debug.h:142-146 | DEBUG and SPEW are never counted; CRITICAL and INFO are when the hook is set |
| Debug.SignedChar | logdevice/common/debug.h:402-404 | a byte read as a signed char, congruent mod 256 |
| Debug.ConstHash | logdevice/common/debug.h:402-404 | the hash is below 2^64 |
| Debug.ConstHashIsSumModulo | logdevice/common/debug.h:402-404 | wrapping at every step equals the unbounded sum wrapped once |
| Debug.ConstHashStopsAtNul | logdevice/common/debug.h:402-404 | only the bytes before the terminating NUL are hashed |
| Debug.ConstHashStep | logdevice/common/debug.h:402-404 | const_hash("") == 0 and const_hash(c·s) == c + 257·const_hash(s) mod 2^64 for ASCII c |
| Debug.DdAssert | logdevice/common/debug.h:391-400 | dd_assert evaluates to the condition, unless a failed check aborts |
| Debug.DdAssertTriggerImpl | logdevice/common/debug.h:417-452 | the trigger always returns false |
| Debug.LdCatch | logdevice/common/debug.h:257-268 | ld_catch evaluates to the truth of expr unless a failed catch aborts |
| ModuleRegistry.EffectiveLevel | logdevice/common/ModuleRegistry.h:40-43 | the module's own level unless NONE, else the global level |
| ModuleRegistry.EffectiveColored | logdevice/common/ModuleRegistry.h:45-48 | the module's own colour setting unless NONE, else the global one |
| ModuleRegistry.Module.constructor | logdevice/common/ModuleRegistry.h:27-30 | a new module has level NONE and colour NONE |
| ModuleRegistry.Module.ResetLogLevel | logdevice/common/ModuleRegistry.h:32-34 | level becomes NONE; the previous level is returned |
| ModuleRegistry.Module.SetLogLevel | logdevice/common/ModuleRegistry.h:36-38 | the new level is stored and the previous one returned |
| ModuleRegistry.Module.GetLogLevel | logdevice/common/ModuleRegistry.h:40-43 | the module's own level unless it is NONE, else the global level |
| ModuleRegistry.Module.GetLogColored | logdevice/common/ModuleRegistry.h:45-48 | the module's own colour setting unless it is NONE, else the global one |
| ModuleRegistry.OwnLevelWins | logdevice/common/ModuleRegistry.h:40-43 | a module's own real level wins over every global level |

## Left out

- Concurrency is not modelled. That covers threads, futures, SharedMutex keep-alives, `tryRLock`, atomics and the interleaving of `shutdown()` with in-flight callbacks. Each callback chain is one sequential method, and `compare_exchange_weak` in the probe controller is taken to succeed.
- I/O and foreign libraries are not modelled: cpr HTTP, gason and folly JSON parsing, the ZooKeeper C client and `std::regex`. The rqlite and ZooKeeper servers are specified classes, JSON is an abstract tree, and the tag pattern is a predicate.
- JSON numbers are natural numbers. Negative and fractional numbers are not modelled.
- `Json` lookup takes the first member with a key. Duplicate keys are not modelled further.
- The following are parameters rather than models: ZooKeeper's `toStatus`, the epoch-store request hooks and LogMetaData's payload, the config store's version extraction and mutator, `parse_network_priority`, `validate_port`, `parseLoglevel`, `Sockaddr` rendering and the clock.
- LogMetaData is a version counter plus an uninterpreted payload. `touch()`'s timestamp is not modelled.
- MetaDataLog.h, logid.h and ZookeeperEpochStore.h are not part of this model. The metadata-log bit is bit 63, `rootPath()` is a configuration value, and LOGID_MAX and the buffer size are constants of the store.
- `ld_check` and `ld_check(false)` are not modelled as aborts. The model follows the release build. Where the source's checks would fail, methods require the shape those checks demand; for example, `readTable`'s single-row result is `WellFormedRead`.
- RqliteEpochStore.ReadResultOf: a NOTFOUND read leaves `version` uninitialised in the source. The model uses 0.
- RqliteConfigStore.MatchError: the `std::mismatch` scan is modelled as reading the error's terminating NUL, which stops it. Reading beyond that terminator is not modelled.
- The cluster name length limit (MAX_CLUSTER_NAME) is not checked by the model, and neither is `ld_check(!value.empty())` in provisioning.
- `getLastCleanEpoch` and `identify()` are not part of this model; they only forward to `runRequest` or format a string.
- CheckpointedReaderBase.CheckpointedReader: the checkpoint store and the inner reader are specified classes with scripted replies. The remove-checkpoint operations and the map-based `asyncWriteCheckpoints` (one store call) are not modelled separately.
- ServerSettings: thrown errors become a structured `ParseError`; their message texts are not modelled. `parse_location`, `parse_ports_per_net_priority`'s port validation and the other setting parsers are not part of this model.
- AdminApi.BiggestScope requires a non-empty replication, because `ReplicationProperty` is not part of this model.
- AdminApi.SettingsUpdater.UnsetFromAdminCmd is taken not to throw. `removeSettingOverride` and the TTL expiry itself are not part of this model. Processor posting is a parameter.
- AdminApi.GetStatus: shards and `inFailSafeMode` are values rather than the local log store. `getLogGroupCustomCounters`' key-range check on a `uint8` is not modelled.
- Debug.DdAssert and Debug.LdCatch: the debug-build abort is a `None` result. The abort itself and the log message are not modelled.
- Log emission and rate limiting are not modelled.
- RqliteClient.Client.Execute / Client.Query: the modelled server always answers 200 with a reply that parses. A 200 whose body gason rejects is not modelled. In the source, the callback then runs once with zero results (logdevice/common/RqliteClient.cpp:47-55, 82-90, 132-135, 186-189). `provisionLogRows` would then report OK, and `writeTable`, `readTable` and `writeModifiedValueNew` would index an empty results vector.
- RqliteClient.Client.Execute: the serialised request body (`SerializeStmts`) is not passed to the modelled server, which receives the statements as values. The body format and its parse-back are stated on their own by `SerializeStmts` and `ParseSerialized`.
- RqliteConfigStore.ConfigStore.WriteModifiedValueNew: runs the corrected `InsertStatus` (Findings rows 1-2). A concurrently inserted row gives VERSION_MISMATCH here, where the source as written gives FAILED.
- RqliteConfigStore.ConfigStore.ReadModifyWriteConfig: its new-row branch is the corrected `InsertRowSpec` (Findings rows 1-2), not the source's status as written.
- ZookeeperEpochStore.Store.OnGetZnodeComplete: runs the corrected `GetZnodePlan` (Findings row 4). A ZOK legacy read with a failed migration read completes with the failure, where the source completes with OK.
- ZookeeperEpochStore.Store.DecideAfterReads: returns the corrected `GetZnodePlan` (Findings row 4), not the plan the source reaches on a failed migration read.
- ZookeeperEpochStore.Store.RunRequest: and through it `SetLastCleanEpoch` and `CreateOrUpdateMetaData`, follow the corrected `GetZnodePlan` (Findings row 4).
- RqliteEpochStore.PathNamesLog: the request's znode-path hook is a parameter. That its log item is the decimal log id, as provisioning keys its rows, is a stated assumption of `RequestReadsProvisionedRow` rather than a proved fact.
- EpochStoreRequest.BufferPrefix: bytes of the buffer that `composeZnodeValue` did not write are uninitialised in the source. The model reads them as 0.

## Findings

| source | as written | input that shows it | evidently intended | confidence | as-written member | corrected member |
|---|---|---|---|---|---|---|
| logdevice/common/RqliteVersionedConfigStore.cpp:274-277 | tests the insert's error (`results[1]`) but matches "UNIQUE constraint failed" against the create's error (`results[0]`), which is empty | the row was inserted by another writer between the read and the insert: results are create Done, insert Failed("UNIQUE constraint failed: t.key") → FAILED | VERSION_MISMATCH, as the comment at lines 278-280 says | high; not executed | RqliteConfigStore.InsertStatusAsWritten, RqliteConfigStore.ConcurrentInsertReportedAsFailed | RqliteConfigStore.InsertStatus, RqliteConfigStore.SecondInsertMismatches |
| logdevice/common/RqliteVersionedConfigStore.cpp:274 | reads `results[1]` unconditionally | an unreachable rqlite server: the client delivers a single "connection error" result (logdevice/common/RqliteClient.cpp:42-55), so `results[1]` is out of bounds | FAILED | high; not executed | RqliteConfigStore.InsertStatusAsWritten, RqliteConfigStore.ConnectionErrorHasOneResult | RqliteConfigStore.InsertStatus, RqliteConfigStore.ConnectionErrorHasOneResult |
| logdevice/server/ServerSettings.cpp:35-52 | the pattern `[^,]+:[^,]*` lets the key part start with ':' | ":x:y" matches and yields the key "" with value "x:y" | a list whose keys are non-empty and free of ':' (the error message says keys must not be empty or contain colons) | medium; not executed | ServerSettings.ParseTagsAsWritten, ServerSettings.TagPatternAdmitsEmptyKey | ServerSettings.ParseTags, ServerSettings.ParsedTagKeys |
| logdevice/server/epoch_store/ZookeeperEpochStore.cpp:313-318 | a migration read that is neither OK nor NOTFOUND jumps to the error exit while `st` still holds the legacy status | legacy read ZOK, migration read ZCONNECTIONLOSS, request that stops at once → completes with OK | the migration read's failure status | medium; not executed | ZookeeperEpochStore.GetZnodePlanAsWritten, ZookeeperEpochStore.MigrationReadFailureReportedAsOk | ZookeeperEpochStore.GetZnodePlan, ZookeeperEpochStore.FailedReadNeverCompletesOk |

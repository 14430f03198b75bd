# Betazen server panel: verified models of its healers and protocols

The panel keeps a server's mail, DNS, TLS and web configuration in order. This project models the parts of it that are
algorithms over state and proves what they promise: that healing is idempotent and touches nothing else, that no edit
is lost, that certificates keep being served, that a failed batch leaves everything as it was.

| module | models |
|---|---|
| `Debounce`, `Overlap` | the per-domain trailing debounce that turns DNS edits into Cloudflare syncs, as atomic steps of goroutines sharing a mutex, a timer map and timers; and when two syncs of a domain can run at once |
| `Certbot`, `Accounts` | the process-wide certbot lock with bounded retry, and the choice of the ACME account |
| `Vhosts` | the line automaton that adds the error-page include once per server block, and the all-or-nothing sweep over the vhosts |
| `DnsHeal` | `heal-dns`: pruning, the apex-wins parent lookup, and the backfill of rows and PowerDNS rrsets |
| `DovecotSni`, `PostfixSni`, `MailSsl` | the two SNI stores, each refined to a map from hosts to paths, and the calls that write both |
| `Relink` | `repair-ssl-links` over a small tree of regular files and symbolic links |
| `EnvFile`, `Dedupe`, `ServerNames`, `CertNames` | the `.env` rewriter, the last-wins deduper, the `server_name` healer, and the certificate name lists of `heal-www` |
| `ZoneRecords` | the rrset primitives and the listing parser of the DNS agent |
| `Repoint` | the shell script that repoints a transferred zone |
| `Text`, `Lists`, `Options`, `Runs` | runs of a state machine, and the string and list functions underneath, with the split, join, trim and field laws the round trips rest on |

Code that loops over lines, indices and maps, or updates files and tables in place, is a method or a class here, proved
against a specification function; the promises are lemmas about that function. Commands, file operations and
cancellations succeed or fail as parameters say, so each theorem speaks about every pattern of failures unless it says
otherwise. Map walks pick an arbitrary element, so each theorem holds for every iteration order.

Preconditions that are not failures of the model but facts about the source's surroundings: `_id` values and the
`domain` columns of zones and domains are unique (backend/internal/database/indexes.go:133-136, 159-161); a directory
lists each name once; a relink run's timestamped backup directory starts empty; every name in a zone is inside it; the
record write precedes the hook call.

## What turned out not to hold

The code is modelled as it is. Where a promise fails, a lemma shows an input and another gives the condition.

- The comment at backend/cmd/server/main.go:209-213 says a burst coalesces into one sync and same-domain syncs cannot
  race. Two syncs of a domain are under way or on their way when a hook resets an expired timer
  (`Debounce.ExpiredTimerReset`) or arms a fresh one while the last callback has not started its check
  (`Debounce.FreshTimerRaces`) or its sync is still running (`Debounce.SyncsOverlap`), and in no other case
  (`Debounce.CoalescesIffNeverOvertaken`). `Overlap.OverlapReachableIff` says from which states two can run at once.
- Both SNI upserts ignore a failed read and start from an empty file. One unread Postfix map drops hosts that Dovecot keeps
  (`MailSsl.UnreadMapLosesHost`); `MailSsl.CallKeepsIffSafe` and `MailSsl.StoresAgreeIffSafe` say exactly when the files
  stay in agreement.
- backend/cmd/bzpanel/main.go:2767-2769 says the certificate presented cannot change. It is lost when the live file is
  removed and the link cannot be made (`Relink.CertLost`). It changes when a generation is written with leading zeros
  (`Relink.PaddedNameServesOther`). `Relink.CertKeptIff` says exactly when it is kept. It becomes unreadable when the
  archive file leads back to it (`Relink.ArchiveLinkLoops`, `Relink.ChainThroughCertUnreadable`).
- backend/internal/agent/dns.go:79-88 takes any error text with "no such" for an absent rrset
  (`ZoneRecords.UnrelatedFailureAccepted`, `ZoneRecords.AcceptedMeansDone`).
- `mail-ssl` validates a trimmed domain but uses the untrimmed one (`MailSsl.SpacedHostAccepted`,
  `MailSsl.HostCleanIffBare`).
- `heal-dns` prunes a zone PowerDNS hosts when listing it fails (`DnsHeal.ZoneLostIff`, `DnsHeal.HostedZonesLost`), does
  not retry a failed PowerDNS write (`DnsHeal.FailedWriteNeverRetried`), ignores failed counts and deletions
  (`DnsHeal.DuplicateRowIff`, `DnsHeal.OrphanIff`), and can want an A and a CNAME at one name (`DnsHeal.ConflictIff`).
- The repoint script keeps a sibling TXT value only if it is single-spaced (`Repoint.SiblingSurvivesIff`). In an SPF
  policy it rewrites third-party ip4 terms too (`Repoint.EveryTermRepointed`, `Repoint.ThirdPartyTermLost`); only the
  source's are rewritten exactly when there are no others (`Repoint.ThirdPartyTermsSurviveIff`).

## Model

| member | source | states |
|---|---|---|
| `Debounce.NoLostEdit` | backend/cmd/server/main.go:215-235 | In every interleaving of edits, hooks, timer expiries and callbacks, an edited domain either had a check start after its latest edit or has an armed timer, a hook on its way or a callback that has not started its check; a quiescent state has no stale domain; never two goroutines inside the critical section |
| `Debounce.InvKept` | backend/cmd/server/main.go:215-235 | Every atomic step keeps the invariant behind `NoLostEdit`, including the reset of an expired timer and a callback deleting an entry that names another timer |
| `Debounce.PendingKept` | backend/cmd/server/main.go:218-228 | Only a check start of a domain can use up its pending work: a fired timer becomes a callback, a hook becomes an armed timer |
| `Debounce.EverySilentRunDrains` | backend/cmd/server/main.go:215-235 | Once edits stop, every schedule has bounded length and ends quiescent with every edited domain checked after its latest edit |
| `Debounce.StepShrinks` | backend/cmd/server/main.go:215-235 | Each step other than an edit strictly uses up remaining work |
| `Debounce.NotStuck` | backend/cmd/server/main.go:218-227 | The mutex never blocks for good: a state that is not quiescent has an enabled step |
| `Debounce.CoalescesIffNeverOvertaken` | backend/cmd/server/main.go:208-235 | The documented coalescing, at most one sync per domain under way or on its way, holds throughout a run if and only if no hook touches its timer while a callback of its domain has a check or sync unfinished |
| `Debounce.ExpiredTimerReset` | backend/cmd/server/main.go:220-227 | It fails from the initial state when a second edit's hook beats the callback to the mutex and resets the expired timer |
| `Debounce.FreshTimerRaces` | backend/cmd/server/main.go:215-228 | It also fails without such a reset: an edit between a callback's unlock and its check arms a fresh timer, and two callbacks end up about to start their checks at once |
| `Debounce.SyncsOverlap` | backend/internal/services/cloudflare_sync_job_service.go:168-176 | It fails as well for an edit made while the first sync is still running: a run from the initial state that ends with two syncs of one domain running at once |
| `Overlap.OverlapReachableIff` | backend/cmd/server/main.go:208-235 | From any state, two syncs of a domain can come to run at once by some continuation without edits if and only if the domain has two among its hooks still to act, armed timers and unfinished callbacks |
| `Overlap.ItemsStep` | backend/cmd/server/main.go:215-235 | No step but an edit adds to the number of those |
| `Overlap.Reach` | backend/cmd/server/main.go:215-235 | From two of them the schedule to an overlap is built step by step |
| `Debounce.SyncHook.TouchMap` | backend/cmd/server/main.go:218-227 | The critical section of hook and callback, on the shared map and timers, takes exactly the model's step and keeps the invariant |
| `Debounce.SyncHook.EditRecord` | backend/cmd/server/main.go:215-217 | A record write followed by starting the hook is one step of the model |
| `Debounce.SyncHook.Lock` | backend/cmd/server/main.go:218-225 | Taking the mutex, by a hook or a callback, is one step of the model and keeps the invariant |
| `Debounce.SyncHook.Unlock` | backend/cmd/server/main.go:219-227 | Releasing it, deferred or explicit, likewise |
| `Debounce.SyncHook.Expire` | backend/cmd/server/main.go:224 | A timer's expiry disarms it and starts its callback, keeping the invariant |
| `Debounce.SyncHook.Check` | backend/cmd/server/main.go:228-233 | Starting the sync check, and with it the detached sync, dates it on the same clock as the edits, keeping the invariant |
| `Debounce.SyncHook.EndSync` | backend/internal/services/cloudflare_sync_job_service.go:168-176 | The end of a sync finishes its callback, keeping the invariant |
| `Debounce.SyncHook.Follow` | backend/cmd/server/main.go:215-235 | On the shared objects, any schedule up to its first step that is not enabled is a run of the model, and no edited domain is left without a later check or work on its way |
| `Certbot.CertbotErrRetryable` | backend/internal/agent/certbot.go:35-57 | The loop finds a transient failure exactly when some marker occurs in the message, ignoring case |
| `Certbot.RetryableAnywhere` | backend/internal/agent/certbot.go:28-57 | Neither letter case nor surrounding text turns a transient failure into a final one |
| `Certbot.RetryableIffMentioned` | backend/internal/agent/certbot.go:28-57 | A text is judged transient if and only if a marker stands in it letter by letter up to ASCII case |
| `Certbot.TransientWherever` | backend/internal/agent/certbot.go:178-184 | A marker in the error text, in the standard output or in the standard error makes a failure transient |
| `Certbot.TransientPhrases` | backend/internal/agent/certbot.go:35-47 | The eleven phrases that make a failure transient |
| `Certbot.RealFailures` | backend/internal/agent/certbot.go:28-34 | certbot's own message about lock contention is transient, its message about failed challenges is not |
| `Certbot.RunCertbotLong` | backend/internal/agent/certbot.go:160-197 | The retry loop obeys the call rules: all attempts but the last failed transiently, the waits are the capped doubling, the result is that of the last attempt or of the caller's cancellation, no attempt follows a cancelled wait, and a failure with a marker in any of its texts is never returned before the sixth attempt |
| `Certbot.CallBounds` | backend/internal/agent/certbot.go:170-196 | At most 6 attempts and 115 seconds of waiting; nothing follows a failure that is not transient; success is returned exactly when the last attempt succeeded |
| `Certbot.NeverGivesUpEarly` | backend/internal/agent/certbot.go:170-196 | A failure with a marker in any of its texts is returned only after the sixth attempt; before that the call ends with it only when cancelled |
| `Certbot.WaitsExactly` | backend/internal/agent/certbot.go:171-195 | The seconds waited are 0, 5, 15, 35, 75 and 115 after none to five waits |
| `Certbot.OneCertbotAtATime` | backend/internal/agent/certbot.go:160-197 | Over all interleavings of any number of callers at most one certbot runs, every returned call obeyed the call rules and no longer holds the mutex, and when all have returned the mutex is free |
| `Certbot.InvKept` | backend/internal/agent/certbot.go:26-197 | Every step keeps: the mutex is held exactly by the one caller between its first attempt and its return, and every caller's log and waiting time fit its phase |
| `Certbot.EveryCallReturns` | backend/internal/agent/certbot.go:160-197 | With no new calls every schedule is bounded and ends with every call returned |
| `Accounts.TallyRenewals` | backend/internal/agent/certbot.go:97-115 | The nested loops count, for every account, the config lines naming it; unreadable files count nothing |
| `Accounts.CertbotAccountArgs` | backend/internal/agent/certbot.go:81-123 | Nothing with at most one account; otherwise a registered account with the most renewals, lexicographically least among those |
| `Accounts.ChoiceIndependentOfOrder` | backend/internal/agent/certbot.go:81-123 | The arguments are the same for every directory walk order and every order of the renewal files |
| `Accounts.AccountLineCounted` | backend/internal/agent/certbot.go:106-112 | The line certbot writes into a renewal config counts for its account, however it is padded |
| `Accounts.MaybeInjectAccount` | backend/internal/agent/certbot.go:131-149 | The arguments change only for `certonly` without a pinned account, and then only by the chosen account at the end |
| `Accounts.InjectionStable` | backend/internal/agent/certbot.go:125-149 | The caller's arguments stay in front; injecting again changes nothing, unless the first injection found at most one account and the second more |
| `Accounts.InjectionDetermined` | backend/internal/agent/certbot.go:131-149 | The injected command line does not depend on walk orders |
| `Accounts.SortedSpec` | backend/internal/agent/certbot.go:96 | The sorted list is ascending and a permutation of the accounts |
| `Accounts.LexLeqIff` | backend/internal/agent/certbot.go:96 | The order is the dictionary's: a prefix first, otherwise the first different character decides |
| `Accounts.NoAccountNamed` | backend/internal/agent/certbot.go:106-112 | Lines that do not start with account or have no equals sign name no account |
| `Accounts.InjectionSpelledOut` | backend/internal/agent/certbot.go:131-149 | `--account` and the chosen id are appended for `certonly` without `--account` and `--account-id` when two accounts exist, and nothing otherwise |
| `Vhosts.InsertIncludeAfterServerName` | backend/internal/agent/defaultpages.go:306-323 | The flag-driven loop inserts after exactly the due lines, where due is defined on positions: the first server_name line after the nearest opening above it |
| `Vhosts.OneIncludePerBlock` | backend/internal/agent/defaultpages.go:301-323 | Within each server block exactly its first server_name line is followed by the include, a block without one gets none, nothing is inserted above the first opening |
| `Vhosts.RetrofitReverts` | backend/internal/agent/defaultpages.go:199-225 | Deleting the inserted lines gives back the original lines; a vhost changes exactly when it is not special and has a server block with a server_name |
| `Vhosts.NoneDueSame` | backend/internal/agent/defaultpages.go:306-323 | The file stays as it is exactly when no line is due |
| `Vhosts.RetrofitTwice` | backend/internal/agent/defaultpages.go:203-225 | A changed vhost is special from then on, so retrofitting is idempotent |
| `Vhosts.AddedLines` | backend/internal/agent/defaultpages.go:46-61 | What a changed vhost gets: every added line includes the gateway snippet when the vhost mentions proxy_pass, and the full one otherwise; without the added lines it is its original |
| `Vhosts.LeftAloneIff` | backend/internal/agent/defaultpages.go:209-225 | A vhost stays as it is exactly when it is wired, suspended or a placeholder by one of the five texts, or has no server block with a name |
| `Vhosts.LineKinds` | backend/internal/agent/defaultpages.go:311-318 | Which indented lines open a block and which name a server |
| `Vhosts.SweptExactly` | backend/internal/agent/defaultpages.go:189-233 | A successful sweep leaves nginx's default, unreadable files and everything that is not a listed file alone |
| `Vhosts.FileCountSplit` | backend/internal/agent/defaultpages.go:189-235 | Files are counted one by one, directories not at all |
| `Vhosts.RetrofitVhost` | backend/internal/agent/defaultpages.go:203-221 | Skip markers, choice of include and insertion together compute the retrofit |
| `Vhosts.Sites.ApplyErrorPages` | backend/internal/agent/defaultpages.go:172-241 | All or nothing: it succeeds exactly when assets, listing and gate succeed and no write of a changing file fails; then every file holds its retrofit, `updated` counts the changed files and `updated + skipped` the non-directories; otherwise every file whose rollback write succeeds is as before |
| `Vhosts.Sites.Rollback` | backend/internal/agent/defaultpages.go:181-187 | Restores every backed-up file whose rollback write succeeds, whatever a torn write left |
| `Vhosts.SecondSweepUpdatesNothing` | backend/internal/agent/defaultpages.go:163-171 | A second sweep over the same entries updates zero files |
| `DnsHeal.FindParent` | backend/cmd/bzpanel/main.go:1895-1921 | The label walk returns the last registered suffix position, with the parent and sub-name it spells |
| `DnsHeal.ApexWins` | backend/cmd/bzpanel/main.go:1899-1921 | The parent found is a registered proper suffix cut at a dot, of at least two labels and with the fewest labels; none exactly when there is none; sub-name, dot and parent spell the domain |
| `DnsHeal.WantedOnce` | backend/cmd/bzpanel/main.go:1923-1990 | Zone, type and name of a wanted record determine the domain it is wanted for, so no record of a sweep overwrites another |
| `DnsHeal.ConflictIff` | backend/cmd/bzpanel/main.go:1923-1990 | A sweep wants an A and a CNAME at one name exactly for a domain row that is www. or cname. of another under the same parent |
| `DnsHeal.Panel.Prune` | backend/cmd/bzpanel/main.go:1846-1877 | Whatever order the zone map is walked in, the sweep goes on with exactly the zones whose listing succeeds without the complaint's words; the others leave the table, and their rows go, unless those deletions fail |
| `DnsHeal.ZoneLostIff` | backend/cmd/bzpanel/main.go:1860-1873 | A sweep does without a zone if and only if its listing fails or contains the complaint's words; it then leaves the table, with all its rows, unless deleting fails. Every other zone keeps all its rows. Hosting plays no part |
| `DnsHeal.HostedZonesLost` | backend/cmd/bzpanel/main.go:1861-1865 | While every listing fails every zone is lost, and so is a zone with a record holding the complaint's words |
| `DnsHeal.Panel.Backfill` | backend/cmd/bzpanel/main.go:1923-1947 | A missing row is inserted and then its rrset written; with either failing, the rest of the step does not happen |
| `DnsHeal.Panel.HealDomain` | backend/cmd/bzpanel/main.go:1887-2012 | The three backfills of one domain, each looking the table up as filled so far, add what is missing from the original table |
| `DnsHeal.Panel.CmdHealDns` | backend/cmd/bzpanel/main.go:1812-2013 | The whole sweep, with any listings, counts, insertions, writes and deletions failing, reaches the order-free state `Healed`; when it reports no failure, the state is the one in which only unreported ones occurred |
| `DnsHeal.EveryDomainComplete` | backend/cmd/bzpanel/main.go:1887-1997 | When nothing fails, a domain with a surviving parent zone ends with an A at its sub-name and a CNAME at www. and cname. of it; where there was none it is the wanted one, the CNAMEs pointing to the domain, and is served with exactly that value; an existing record keeps its value |
| `DnsHeal.NewDomainPublished` | backend/cmd/bzpanel/main.go:1930-1999 | Spelled out: for a domain `sub.parent` without records the sweep leaves an A at `sub` with the zone's server_ip, or the configured one when it is empty, and CNAMEs at `www.sub` and `cname.sub` to `sub.parent.`, all with TTL 3600, and PowerDNS serves exactly that one value for each |
| `DnsHeal.OnlyThoseAdded` | backend/cmd/bzpanel/main.go:1887-2012 | Whatever fails, every row that was not there is one of those three for some listed domain under a served zone |
| `DnsHeal.RowsExact` | backend/cmd/bzpanel/main.go:1867-1997 | Rows of surviving zones stay in front, unchanged; what is added is exactly the wanted rows whose key had none |
| `DnsHeal.NoRowOfPrunedZone` | backend/cmd/bzpanel/main.go:1846-1877 | No row of a pruned zone remains or is added, except those whose deletion failed, which all remain |
| `DnsHeal.OrphanIff` | backend/cmd/bzpanel/main.go:1867-1873 | A row is left without its zone exactly when the zone is pruned, deleting its rows fails and deleting the zone does not |
| `DnsHeal.OrphanRowsStay` | backend/cmd/bzpanel/main.go:1860-1877 | Such a row is never deleted, whatever later sweeps do |
| `DnsHeal.DuplicateRowIff` | backend/cmd/bzpanel/main.go:1924-1947 | A wanted record that has a row gets another one exactly when counting fails and inserting does not, and its rrset is then overwritten |
| `DnsHeal.RrsetsExact` | backend/cmd/bzpanel/main.go:1936-1990 | An rrset is the wanted value where a row was inserted and its write succeeded, and as before everywhere else |
| `DnsHeal.NoDuplicateAdded` | backend/cmd/bzpanel/main.go:1924-1990 | No two wanted rows share a key, so none is added twice |
| `DnsHeal.OrderFree` | backend/cmd/bzpanel/main.go:1885-1997 | Every enumeration order of the domains gives the same zones, rrsets and rows |
| `DnsHeal.SecondSweepChangesNothingIff` | backend/cmd/bzpanel/main.go:1798-1804 | After a sweep without failures a second one, with any failures, changes nothing if and only if every wanted record whose count fails also fails to be inserted |
| `DnsHeal.FailedWriteNeverRetried` | backend/cmd/bzpanel/main.go:1928-1947 | Over any number of sweeps, a record with neither row nor rrset at first gets its rrset if and only if some sweep both inserts the row and writes the rrset, where a sweep inserts only if no earlier one could or its count fails: a failed insertion is retried, a failed write is not |
| `DovecotSni.FindClosingBrace` | backend/cmd/bzpanel/main.go:4066-4083 | The depth-counting loop finds the position the recursive brace matcher gives |
| `DovecotSni.DovecotUpsert` | backend/cmd/bzpanel/main.go:4050-4101 | The written file ends with the host's four lines: `local_name`, the certificate under ssl_cert, the key under ssl_key, the closing brace. In a file the panel wrote, or does not own yet, it is a panel file that reads back as the other hosts' entries in their order followed by this host's single entry |
| `DovecotSni.UpsertLaid` | backend/cmd/bzpanel/main.go:4050-4101 | An upsert of a file laid out by the panel keeps it laid out, with the other blocks byte for byte as they were and the new block last |
| `DovecotSni.UpsertEntries` | backend/cmd/bzpanel/main.go:4050-4101 | Read back, the other hosts keep their entries in order and the host has its single new entry last |
| `DovecotSni.UpsertsDenoteLatest` | backend/cmd/bzpanel/main.go:4050-4101 | From a file the panel does not own, after any upserts the file is the heading and exactly one block per host, with that host's latest paths |
| `DovecotSni.UpsertDenotes` | backend/cmd/bzpanel/main.go:4050-4101 | An upsert is a map update |
| `DovecotSni.ParseLaid` | backend/cmd/bzpanel/main.go:4050-4101 | An independent line reader recovers exactly the blocks of a laid-out file |
| `DovecotSni.RepeatIsNoOpIffLast` | backend/cmd/bzpanel/main.go:4050-4101 | Writing an entry again leaves the text unchanged if and only if its block is already the last one |
| `PostfixSni.PostfixUpsert` | backend/cmd/bzpanel/main.go:4000-4044 | The line loop drops blank lines, rewrites the host's lines and appends a missing host |
| `PostfixSni.PostfixUpsertDenotes` | backend/cmd/bzpanel/main.go:4000-4044 | Whatever the map held, an upsert is a map update, with the key before the certificate in the value |
| `PostfixSni.PostfixRepeatIsNoOp` | backend/cmd/bzpanel/main.go:4000-4044 | Repeating an upsert changes no byte |
| `PostfixSni.LineWritten` | backend/cmd/bzpanel/main.go:4001-4031 | The line `host key,certificate` is in the rewritten map |
| `MailSsl.SniFiles.Run` | backend/cmd/bzpanel/main.go:3790-4101 | A call writes the Postfix map, then the Dovecot file, stopping at its first failure; a file that cannot be read is silently taken for empty |
| `MailSsl.CallKeepsIffSafe` | backend/cmd/bzpanel/main.go:3821-4101 | From files in agreement (Dovecot's hosts among Postfix's, both giving each host its own paths), a call leaves them in agreement if and only if it is safe: it writes no map, or has read the map, or leaves Dovecot no other host |
| `MailSsl.SuccessKeepsSameHostsIff` | backend/cmd/bzpanel/main.go:3821-4101 | A successful call keeps both files on the same hosts if and only if it read both or neither, or there is no other host |
| `MailSsl.StoresAgreeIffSafe` | backend/cmd/bzpanel/main.go:3821-4101 | Over every run from stores naming no host, whatever steps fail, the files agree after every call if and only if every call was safe when made; if every call succeeded and read both files or neither, they denote the same map |
| `MailSsl.UnreadMapLosesHost` | backend/cmd/bzpanel/main.go:4008-4009 | After a successful call for one host, a call for another that cannot read the Postfix map leaves Postfix without the first host, which Dovecot keeps |
| `MailSsl.HostCleanIffBare` | backend/cmd/bzpanel/main.go:3794-3798 | An accepted host fits the two file formats exactly when stripping left no space at an end of the domain |
| `MailSsl.SpacedHostAccepted` | backend/cmd/bzpanel/main.go:3794-3798 | Such a space does get through: `mail. ` before any valid domain is accepted, because the domain is trimmed only where it is validated |
| `MailSsl.HostForms` | backend/cmd/bzpanel/main.go:3794-3799 | A valid domain may be given with a final dot and with `mail.` in front |
| `MailSsl.LabelEdges` | backend/cmd/bzpanel/main.go:1048 | Labels have at most 63 characters, letters and digits at their ends and hyphens between |
| `MailSsl.CallWrites` | backend/cmd/bzpanel/main.go:3819-3828 | A successful call leaves its host's privkey.pem and fullchain.pem under live/, in that order in the Postfix map and under ssl_key and ssl_cert in the Dovecot file |
| `Relink.GenerationOfPem` | backend/cmd/bzpanel/main.go:2817-2824 | Parsing the printed certificate name gives back its generation, up to the largest integer |
| `Relink.Store.BestGeneration` | backend/cmd/bzpanel/main.go:2815-2830 | In any order of the archive directory, the loop finds the highest generation whose certificate reads as the live one, or none |
| `Relink.Store.RelinkDir` | backend/cmd/bzpanel/main.go:2850-2864 | Backs up, removes and links the four files one after the other, and reports whether every link was made |
| `Relink.Store.RepairSslLinks` | backend/cmd/bzpanel/main.go:2789-2871 | The sweep judges each directory in the tree the ones before it left, with any operation failing, and counts it |
| `Relink.ArchiveUntouched` | backend/cmd/bzpanel/main.go:2789-2871 | Whatever fails, nothing but the listed live directories and this run's backup changes |
| `Relink.EveryReplacedFileBackedUp` | backend/cmd/bzpanel/main.go:2847-2864 | Whatever else fails, a regular live file that is replaced or lost is in the backup, unless it could not be read or its backup not written |
| `Relink.EveryDirCounted` | backend/cmd/bzpanel/main.go:2798-2871 | Healthy, relinked and skipped add up to the directories having a cert.pem |
| `Relink.EveryDirSettled` | backend/cmd/bzpanel/main.go:2789-2871 | When nothing fails, a directory whose archive files do not lead into the listed live directories is judged as it was at the start; a repairable one ends with four links to its generation and its regular files in the backup, any other keeps its files |
| `Relink.ChosenGeneration` | backend/cmd/bzpanel/main.go:2815-2846 | The generation chosen is the highest with a matching certificate and all four of its files exist |
| `Relink.RepairableIff` | backend/cmd/bzpanel/main.go:2815-2849 | A directory is judged repairable if and only if its highest matching generation has its cert, chain, fullchain and privkey files and the backup directory can be made; lacking one of the four it is skipped |
| `Relink.IncompleteSkipped` | backend/cmd/bzpanel/main.go:2836-2846 | Whatever fails, a directory whose highest matching generation lacks one of the four files keeps its live files and is counted as skipped |
| `Relink.RepairedReadable` | backend/cmd/bzpanel/main.go:2836-2864 | When nothing fails, the four live files of a repaired directory are links to the four archive files by name, and all can be read |
| `Relink.SignedNumbers` | backend/cmd/bzpanel/main.go:2822 | Generation numbers may carry a sign, as strconv.Atoi allows |
| `Relink.CertKeptIff` | backend/cmd/bzpanel/main.go:2767-2771 | Whatever fails: the certificate of a directory judged repairable, with a sheltered archive, reads as before if and only if the sweep is cut short before it, or the file cannot be removed, or the link can be made and archive/<d>/cert<n>.pem reads as the live bytes, one link short of the limit |
| `Relink.OtherVerdictKeeps` | backend/cmd/bzpanel/main.go:2792-2849 | Whatever fails, a directory judged in any other way keeps its four live files |
| `Relink.CertLost` | backend/cmd/bzpanel/main.go:2859-2869 | When the file can be removed and the link cannot be made, the certificate is gone and the directory is merely counted as skipped |
| `Relink.AbortedIff` | backend/cmd/bzpanel/main.go:2847-2849 | The sweep is cut short exactly by a directory judged repairable whose backup directory cannot be made |
| `Relink.ReplacedCertKeptIff` | backend/cmd/bzpanel/main.go:2767-2771 | For a certificate that was replaced it is enough that this one archive file does not lead into a listed live directory: it reads as before if and only if that file held the live bytes |
| `Relink.ServedBytesKept` | backend/cmd/bzpanel/main.go:2767-2771 | With canonical numbers, every certificate read through links gives the same bytes as before, through at most one link more than before and than its archive needs (which is none for regular files, `Relink.RegularArchive`) |
| `Relink.SecondSweepRelinksNone` | backend/cmd/bzpanel/main.go:2772-2871 | A second sweep relinks nothing and changes nothing |
| `Relink.PaddedNameServesOther` | backend/cmd/bzpanel/main.go:2816-2864 | Zero-padded names break the promise: with cert03.pem holding the live certificate and cert3.pem another, the other one is served afterwards |
| `Relink.ArchiveLinkLoops` | backend/cmd/bzpanel/main.go:2816-2864 | An archive file that is a link back to the live one becomes a loop, and the certificate is no longer readable |
| `Relink.ChainThroughCertUnreadable` | backend/cmd/bzpanel/main.go:2816-2864 | In every tree, whatever fails: an archive file that leads back to the certificate, through paths the sweep leaves alone, makes the replaced certificate unreadable |
| `Relink.RepairedReads` | backend/cmd/bzpanel/main.go:2850-2864 | Each repaired file reads as the archive file of the chosen generation did, through one more link |
| `Relink.RegularArchive` | backend/cmd/bzpanel/main.go:2760-2768 | An archive of regular files meets the conditions of the theorems about repaired directories |
| `Dedupe.KeepLatest` | backend/cmd/bzpanel/main.go:4318-4358 | The two passes over indices and the last-index map keep exactly the specified lines, and kept plus removed is the number of lines |
| `Dedupe.KeptShape` | backend/cmd/bzpanel/main.go:4307-4358 | What is kept is a subsequence with every keyless line and exactly one line per key |
| `Dedupe.FirstIsLast` | backend/cmd/bzpanel/main.go:4307-4358 | The first match for a key among the kept lines is its last match among all lines |
| `Dedupe.LookupKeepsLatest` | backend/cmd/bzpanel/main.go:4307-4358 | The same for the file's text, in both separator modes |
| `Dedupe.SecondRunIsNoOp` | backend/cmd/bzpanel/main.go:4307-4358 | A second run changes nothing and removes nothing |
| `Dedupe.KeysOfLines` | backend/cmd/bzpanel/main.go:4318-4339 | The key is what stands before the first colon in a passwd-style file and the first word in a map-style file |
| `Dedupe.KeylessLines` | backend/cmd/bzpanel/main.go:4318-4339 | Comments, blank lines, lines without the colon and lines starting with it have no key |
| `Dedupe.MailFile.DedupePasswdFile` | backend/cmd/bzpanel/main.go:4307-4401 | The file is rewritten only when a line goes, the count returned is the number of lines removed, and on an error the file is untouched |
| `EnvFile.ReadEnv` | backend/cmd/bzpanel/main.go:4407-4428 | The reader's loop computes the map in which the last assignment of a key wins |
| `EnvFile.SetEnvLines` | backend/cmd/bzpanel/main.go:849-876 | In-place rewriting and appending give the specified text for some order of the missing keys |
| `EnvFile.Store.SetEnvVars` | backend/cmd/bzpanel/main.go:849-883 | The file is replaced only when the temporary copy and the rename succeed |
| `EnvFile.ReadsBackIffProper` | backend/cmd/bzpanel/main.go:855-876 | A file holding one written pair reads back as that pair if and only if key and value are in one line without outer spaces, the value has no outer quotes, and the key is nonempty without `=` or a leading `#` |
| `EnvFile.WriteThenRead` | backend/cmd/bzpanel/main.go:849-883 | Reading the rewritten file gives the old map overridden by the updates, for every map iteration order |
| `EnvFile.OtherLinesStay` | backend/cmd/bzpanel/main.go:849-851 | Comments, blanks and lines of other keys stay in place; an updated key's lines carry its new value |
| `EnvFile.SecondWriteIsNoOp` | backend/cmd/bzpanel/main.go:849-883 | Applying the same updates again changes no byte |
| `EnvFile.NothingAssigned` | backend/cmd/bzpanel/main.go:858-865 | Comments, blank lines, lines without `=` and lines starting with it assign nothing |
| `EnvFile.CommentIgnored` | backend/cmd/bzpanel/main.go:4413-4427 | A comment line changes nothing about what a file assigns |
| `EnvFile.QuotedReads` | backend/cmd/bzpanel/main.go:4413-4427 | A value may be quoted, and set apart from its key by spaces |
| `ServerNames.HealVhostServerNames` | backend/cmd/bzpanel/main.go:2287-2332 | Reports a change exactly when some directive mentioning the domain lacks its www. or its cname. name; line count and all other lines are kept |
| `ServerNames.HealedDirective` | backend/cmd/bzpanel/main.go:2287-2332 | A healed directive reads back as its old hosts in order followed by the missing names, covers www. and cname., and lacks nothing from then on |
| `ServerNames.SecondHealIsNoOp` | backend/cmd/bzpanel/main.go:2287-2332 | A healed text splits into the healed lines and a second application reports no change |
| `ServerNames.HealedText` | backend/cmd/bzpanel/main.go:2302-2328 | The text of a healed directive: its indent, its hosts and the missing names, compared up to ASCII case |
| `ServerNames.NamesIff` | backend/cmd/bzpanel/main.go:2309-2323 | A name is there when some host equals it letter by letter up to ASCII case |
| `ServerNames.OtherLinesKept` | backend/cmd/bzpanel/main.go:2294-2300 | Lines that do not start with server_name or do not mention the domain stay |
| `ServerNames.OtherDirectiveKept` | backend/cmd/bzpanel/main.go:2305-2308 | So do lines of other directives whose name starts with it |
| `CertNames.ReadCertSans` | backend/cmd/bzpanel/main.go:2338-2377 | The parsing loop computes the listed names and whether one is a wildcard |
| `CertNames.SansReadBack` | backend/cmd/bzpanel/main.go:2338-2377 | Parsing inverts printing a list as `DNS:a, DNS:b` inside a certificate dump |
| `CertNames.TwoNamesRead` | backend/cmd/bzpanel/main.go:2338-2377 | The line `DNS:a, DNS:b` after the title line reads as the two names |
| `CertNames.CertbotNames` | backend/cmd/bzpanel/main.go:2208-2231 | The closure with its `seen` map lists each offered name the first time its folded form shows up |
| `CertNames.ReissueDropsNothing` | backend/cmd/bzpanel/main.go:2196-2231 | The list starts with the domain, has no duplicates up to case and covers exactly the old names, the domain, www. and cname. |
| `CertNames.ReissueCovers` | backend/cmd/bzpanel/main.go:2196-2231 | Name by name, up to outer spaces and ASCII case: no duplicates, and covered exactly are the old names, the domain, its www. and its cname. name |
| `CertNames.ReissuedIsAlreadyOk` | backend/cmd/bzpanel/main.go:2196-2202 | A certificate issued for the list, printed and parsed, lacks neither name on the next sweep |
| `ZoneRecords.Agent.ReplaceDnsRecordSet` | backend/internal/agent/dns.go:110-121 | Sets the rrset to exactly the values, or deletes it when there are none; a failed command changes nothing, a failed reload reports an error after the change |
| `ZoneRecords.Agent.DeleteDnsRecord` | backend/internal/agent/dns.go:76-93 | Deletes the rrset, or reports success unchanged when the error text looks like an absent rrset |
| `ZoneRecords.LastWriteWins` | backend/internal/agent/dns.go:95-121 | After any sequence of calls, some failing, each rrset is as the last successful command on it left it |
| `ZoneRecords.AcceptedLastCallHolds` | backend/internal/agent/dns.go:95-121 | When every call returned no error and deletions were refused only for absent rrsets, each rrset holds exactly its last written values |
| `ZoneRecords.AcceptedMeansDone` | backend/internal/agent/dns.go:76-93 | A call meets its promise, to leave what was asked for when it returns no error, if and only if it is not the deletion of an existing rrset whose command failed with a text taken for an absent one |
| `ZoneRecords.UnrelatedFailureAccepted` | backend/internal/agent/dns.go:84-88 | An unrelated error whose text says `no such file or directory` is reported as success while the rrset remains |
| `ZoneRecords.AlreadyGoneIff` | backend/internal/agent/dns.go:84-88 | A failed deletion is taken for an absent rrset exactly when its text says `could not find` or `no such`, letter by letter up to ASCII case |
| `ZoneRecords.ListZoneRecords` | backend/internal/agent/dns.go:166-207 | The parsing loop reads the records of the untrimmed listing: outer blank space does not matter |
| `ZoneRecords.ListingReadsBack` | backend/internal/agent/dns.go:166-207 | Parsing a printed listing gives back every record in order with its zone-relative name and single-spaced value, with or without final dots, ignoring short lines |
| `ZoneRecords.RelativeAbsolute` | backend/internal/agent/dns.go:195-201 | A zone-relative name, `@` included, survives being printed in full and parsed |
| `Repoint.Server.ReplaceEach` | scripts/_test_ip_repoint.py:126-138 | Replacing the hit rrsets one at a time, in any order, through zone-relative names replaces exactly those rrsets whose command succeeds |
| `Repoint.Server.RepointZone` | scripts/_test_ip_repoint.py:123-158 | Both loops together map every rrset to its image unless its command fails; `changed` is set exactly when something was replaced |
| `Repoint.OthersUntouched` | scripts/_test_ip_repoint.py:3-20 | TTLs are kept; other types, A rrsets without the source address and TXT rrsets with no spf1 in name or values are unchanged |
| `Repoint.AddressesSwapped` | scripts/_test_ip_repoint.py:126-136 | In a hit A rrset the source is gone, the destination present and every third address stays |
| `Repoint.SiblingSurvivesIff` | scripts/_test_ip_repoint.py:139-155 | Beside an SPF policy, another TXT value survives if and only if its words are single-spaced |
| `Repoint.EveryTermRepointed` | scripts/_test_ip_repoint.py:145-149 | In a policy every ip4 term becomes the destination's, whatever its address, its qualifier and its place |
| `Repoint.ThirdPartyTermsSurviveIff` | scripts/_test_ip_repoint.py:1-4 | For a policy the rewriting made is the promised one, which replaces the source's terms only, if and only if every address the pattern meets is the source's or the destination's |
| `Repoint.ThirdPartyTermLost` | scripts/_test_ip_repoint.py:145-149 | A policy naming only 8.8.8.8 loses it to the destination |
| `Repoint.TermInPlace` | scripts/_test_ip_repoint.py:147 | A term between separators is replaced where it stands, the rest being rewritten independently |
| `Repoint.PolicyRepointed` | scripts/_test_ip_repoint.py:139-155 | A quoted policy naming the source, alone or followed by ` ~all`, is in the zone afterwards with the destination in its place |
| `Repoint.HitTxtIff` | scripts/_test_ip_repoint.py:139 | A TXT rrset is rewritten exactly when spf1 stands in its name or one of its values |
| `Repoint.GsubSegment` | scripts/_test_ip_repoint.py:147 | Within a run free of spaces and quotes the replacement is: everything after the first mark becomes the destination, if anything follows |
| `Repoint.GsubSep` | scripts/_test_ip_repoint.py:147 | Spaces and quotes split the replacement into independent parts |
| `Repoint.RewriteTxtTwice` | scripts/_test_ip_repoint.py:143-150 | A rewritten value is single-spaced and stays as it is when rewritten again |
| `Repoint.SecondRunSame` | scripts/_test_ip_repoint.py:113-160 | A second run leaves the zone as the first one left it |
| `Repoint.ToRelativeInverse` | scripts/_test_ip_repoint.py:118-122 | `to_relative` undoes the printed name, and completing it again gives the same name |

## Left out

- Case folding is ASCII; invalid UTF-8 and Go's byte order of strings beyond ASCII are not distinguished from characters.
- Debounce.NoLostEdit: is about starts of sync checks; what a sync does and the length of the five-second delay are not modelled, and a check that finds Cloudflare off for the domain counts as a sync that ends at once.
- Certbot.RunCertbotLong: an attempt is one outcome; its own timeout and the output returned beside the error are not modelled.
- DnsHeal.Panel.CmdHealDns: reading the zone and domain cursors succeeds; the summary counters are reduced to whether any failure was reported.
- DovecotSni.UpsertsDenoteLatest: starts from a file the panel does not own; a panel-owned file edited by hand is not covered.
- MailSsl.StoresAgreeIffSafe: covers hosts without outer spaces; the reload of the daemons and the renewal hook are not modelled.
- Relink.ServedBytesKept: speaks of cert.pem only, because the code compares only that file; the other three come from the same archive generation whatever their live bytes were.
- Relink.EveryDirSettled: an archive whose links lead into another listed live directory that the same sweep relinks is not characterised; directories that are themselves links are not modelled.
- Relink's repair of renewal configs naming an absent ACME account is not modelled.
- ServerNames.HealedDirective: a directive spread over lines or followed by a comment is read as the code reads it, as one line of names.
- Vhosts.Sites.ApplyErrorPages: two directory entries that are links to one file are not modelled; the reload after success is not part of the state.
- Repoint.RewriteTxtTwice: fields are split at Unicode white space where awk splits at space, tab and newline; `pdnsutil` escapes every other such character in its listings, so the lines awk sees are split alike.
- Repoint.Server.RepointZone: works on rrsets as sets of values, the way PowerDNS stores them, not on the text of the listing; `ZoneRecords.ListingReadsBack` covers listings.
- Ownership, mode bits, timestamps and partially written files, except for the torn writes the vhost rollback repairs.
- Daemons, database drivers, HTTP handlers, package installation, menus and the remaining scripts.

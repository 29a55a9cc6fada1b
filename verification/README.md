# Verified model of PowerDNS UI

PowerDNS UI is a web interface to a PowerDNS server. This project models the parts of it that hold state, follow a
protocol or do arithmetic in text, and proves what they promise over all inputs, runs and interleavings.

| files | what they model |
|---|---|
| `rate_limiter.dfy`, `limiter_runs.dfy`, `limiter_skew.dfy`, `limiter_bounds.dfy`, `limiter_tightness.dfy`, `limiter_memory.dfy`, `middleware.dfy`, `middleware_answers.dfy` | the sliding-window rate limiter and the middleware that feeds it |
| `client_ip.dfy` | the client address behind trusted proxies |
| `reverse_dns.dfy`, `ipv6_text.dfy`, `reverse_zones.dfy`, `reverse_lookup.dfy`, `reverse_ipv4.dfy`, `ipv4_networks.dfy`, `ipv4_best_zone.dfy`, `reverse_input.dfy`, `powers.dfy` | reverse names and zones |
| `secret_key.dfy`, `secret_key_outcomes.dfy` | the signing key that workers publish through a hard link |
| `startup.dfy`, `startup_progress.dfy` | one-time initialisation under a file lock |
| `accounts.dfy`, `account_store.dfy`, `account_requests.dfy`, `account_runs.dfy`, `account_safety.dfy`, `account_lockout.dfy`, `account_revival.dfy` | users, sessions and OIDC identities |
| `zone_import.dfy` | importing a zone file as a patch |
| `settings.dfy` | settings pinned by the environment over stored ones |
| `sql_splitter.dfy`, `migration.dfy` | the SQL splitter and the upgrade of legacy databases |
| `strings.dfy`, `options.dfy`, `sets.dfy` | text operations, an option type, set sizes |

Code that changes things step by step is a class or a method with loops, proved equal to a function of the old state;
what the program promises is then proved about that function. The two start-up protocols are state machines whose runs
are arbitrary interleavings of single steps.

## Assumptions

- Time is a real number. The exact limiter results need clock readings that do not go back in the order in which the
  lock is taken. The code reads the clock before it takes the lock, so this can fail: `OutOfOrderBreaksTheWindow` shows
  what happens then, and `WindowSafetyWithSkew` what still holds. `MemoryBound` also needs a clock that is not negative.
- Each key is always checked under one limit and window, as the middleware does.
- Signed tokens cannot be forged and password hashes are injective. Each request is one atomic step.
- The database may give out any id that is free, one of a deleted account included, as the default SQLite does for the
  highest one: `id` is a plain primary key.
- The environment is fixed while a process runs. Any active account may present a personal access token, unless said
  otherwise.
- The outcome of `ipaddress` parsing, of `Number(text)` printed as text, of the password policy, of the identity
  provider and of each I/O call is a parameter.

## Where the code falls short of its promises

- Key agreement fails on a key file that starts out blank, and only then (`AgreementCondition`).
- The guards against locking everybody out compare the submitted form, or the settings in force under the present
  pins, with the present administrators. From the first start on, over any sequence of processes under pins from some
  set, nobody is ever locked out exactly when each of these pins one of the two settings off, or nothing is ever pinned
  (`LockOutCondition`). Two failing cases are a setting pinned on while the other is not pinned off, and a setting
  pinned off for a time and then no longer. If access tokens come from sessions only, there is one more way: every
  process pins local login as disabled and none pins OIDC on, so that nobody can ever sign in
  (`EarnedLockOutCondition`).
- The guard of the last administrator counts inactive ones, so the last active one can take itself away while an
  inactive one is counted beside it (`LastActiveAdminLost` has the exact condition).
- A revoked session can become valid again after its account is deleted, if a new one gets the same id and name. Where
  any free id may be given out, that is possible exactly when there is an active administrator (`RevivalCondition`). On
  SQLite, and under pins that do not change, some account must have a smaller id too, and if both settings are pinned on
  the OIDC administrators must not stand in the way (`SqliteRevivalCondition` has the exact condition).
- A suffix test on `in-addr.arpa.` names is not aligned on labels: it is right for a zone exactly when the first label
  of the zone has three digits (`SuffixTestIsRightIff`). A wrong zone is preferred to the right one exactly when it has
  more octets (`Ipv4BestZoneIsRightIff`).
- `docs/features/reverse-dns.md` promises several zones for a network that is not aligned on an octet or nibble. The
  code names one; the model follows the code. For IPv6 that zone is too narrow (`UnalignedZoneIsNarrower`). For IPv4 it
  is too narrow up to /23, except at /8 and /16 (`ShortPrefixIsNarrower`), and too wide from /25 on
  (`LongPrefixIsWider`): it is the network at /8, /16 and /24 only (`ZoneIsNetworkIff`).
- Names are compared as text, so an IPv6 address written in capitals does not match a zone written in small letters
  (`SuffixIsPrefixMatch`).
- A signed zone file has RRSIG sets that share one (name, type), so the patch can name a key twice
  (`RrsigSetsRepeat`).
- Workers that start without the lock can meet each other's changes and fail, exactly when there are two and the schema
  is not current or a row is still to be inserted (`StartCondition`).
- The SQLite driver begins a transaction at the first changed row, so an upgrade that fails leaves the columns it has
  added. The next one takes the zone column for an old one and binds no ACME key to its zone (`RetryCondition`).

## Model

| member | source | states |
|---|---|---|
| `RateLimiter.SlidingWindowLimiter.constructor` | backend/app/security.py:85-91 | An empty store, no sweep yet, no window seen. |
| `RateLimiter.SlidingWindowLimiter.Check` | backend/app/security.py:93-114 | The eviction loop and the verdict leave exactly the state and verdict of `CheckEffect`, whose meaning over runs the rows below state. |
| `RateLimiter.SlidingWindowLimiter.Sweep` | backend/app/security.py:116-129 | At most once per 300 s, exactly the deques that are empty or whose newest hit is older than the largest window seen are removed. |
| `RateLimiter.SweepExactly` | backend/app/security.py:116-129 | Key by key: a sweep within 300 s of the last one does nothing; another keeps a deque exactly if it has a hit later than the largest window before now. |
| `LimiterRuns.RefinesReference` | backend/app/security.py:93-129 | Over every run of checks on any mix of keys, each verdict (with its delay) and each admission is that of a limiter that never forgets a hit: eviction and sweeping cannot be seen. |
| `LimiterBounds.AllowedBelowLimit` | backend/app/security.py:107-114 | A check is allowed exactly while fewer than the limit of admitted hits of its key lie in its window; it raises `IndexError` exactly for a limit of zero or less. |
| `LimiterBounds.WindowSafety` | backend/app/security.py:93-129 | For every run, key and moment t, the interval from t minus the window (excluded) to t holds at most the limit of admitted hits, swept and recreated deques included. |
| `LimiterBounds.OtherKeysUnseen` | backend/app/security.py:86-129 | The verdicts and admitted hits of a key are those it would get if no other key were ever checked. |
| `LimiterBounds.RetryAfterBound` | backend/app/security.py:98-111 | On a denial the counted hits fill the limit exactly, the delay is at least 1, and it exceeds the remaining life of the oldest of them by at most one second. |
| `LimiterBounds.RetryAfterIsEnough` | backend/app/security.py:98-114 | After a denial every check of the key before that hit leaves the window is denied; one at or after now plus the delay is allowed if no other check of the key was admitted meanwhile. |
| `LimiterSkew.WindowSafetyWithSkew` | backend/app/security.py:93-129 | With readings that lag by at most some skew behind earlier ones, an interval shorter than the window by twice the skew holds at most the limit of admitted hits of a key. |
| `LimiterTightness.SkewBoundIsTight` | backend/app/security.py:102-129 | For every limit of at least two, every positive skew and every window longer than twice the skew, a run with that skew holds more hits than the limit in any longer interval: a sweep judges a deque by its newest entry. |
| `LimiterMemory.MemoryBound` | backend/app/security.py:83-129 | After every admitted check each deque is sorted, holds between 1 and the limit of hits (none for a limit below 1), its newest is later than now minus (largest window + 300 s), and no more deques are in use than hits were admitted since then. |
| `LimiterMemory.MaxWindowIsLargest` | backend/app/security.py:88-91 | No check so far was made under a larger window than the one the sweep goes by. |
| `LimiterMemory.MaxWindowIsOne` | backend/app/security.py:88-105 | That one is the window of some check made, or zero at first. |
| `LimiterMemory.OutOfOrderBreaksTheWindow` | backend/app/security.py:102-104 | A concrete run in which a clock reading taken before the lock arrives late and the window holds one hit too many. |
| `Middleware.RateLimitMiddleware.constructor` | backend/app/security.py:147-165 | No check made yet. |
| `Middleware.RateLimitMiddleware.Handle` | backend/app/security.py:173-205 | The outcome and the one or two checks of a request, exempt paths included; the limiter stays in the state that the checks made so far determine. |
| `MiddlewareAnswers.ThrottledIsAnswered` | backend/app/security.py:182-205 | For readings in order, a throttled request reaches the application exactly when fewer than `max_requests` admitted hits of its address lie in the window and, for a login POST, fewer than `login_max_attempts` login hits do; else it is told to wait, naming the full budget, for a time bounded by the oldest counted hit; and which hits it adds. |
| `MiddlewareAnswers.ExemptIsForwarded` | backend/app/security.py:174-181 | Requests that are not HTTP, outside `/api/` or to `/api/health` are always forwarded and not counted. |
| `Middleware.BudgetsHold` | backend/app/security.py:163-205 | For any traffic and any client address, at most `max_requests` rate-limited requests, and at most `login_max_attempts` login POSTs, reach the application in any window, shortened by twice the skew of the clock readings: the two prefixes never share a deque. |
| `ClientIp.UntrustedPeerDecides` | backend/app/client_ip.py:44-47 | With a peer outside the trusted networks no header changes the result. |
| `ClientIp.WithoutHeader` | backend/app/client_ip.py:44-51 | Without a header, or without a peer, the result is the peer or nothing. |
| `ClientIp.TrustedIff` | backend/app/client_ip.py:34-39 | An address is trusted exactly when it parses and lies in a listed network of its version. |
| `ClientIp.RightmostUntrustedHop` | backend/app/client_ip.py:52-56 | With a trusted peer the result is the rightmost hop that is not a trusted proxy. |
| `ClientIp.OnlyTrustedHops` | backend/app/client_ip.py:49-57 | With trusted hops only, the result is the leftmost hop, or the peer when the header names none. |
| `ClientIp.PrependingIsIgnored` | backend/app/client_ip.py:42-57 | Any text and a comma put in front of the header leave the result unchanged once the header names an untrusted hop. |
| `ReverseDns.FindBestReverseZone` | frontend/src/app/shared/utils/dns-reverse.utils.ts:70-87 | The loop returns a served zone with the longest name, nothing when no reverse zone of the list is a suffix of the PTR name or the name cannot be built. |
| `ReverseDns.BestNameIsUnique` | frontend/src/app/shared/utils/dns-reverse.utils.ts:78-86 | The name of the result depends neither on the order of the list nor on repeated zones. |
| `Ipv6Text.ExpandKeepsAddress` | frontend/src/app/shared/utils/dns-reverse.utils.ts:3-15 | For both text forms of section 2.2 of RFC 4291, expansion gives eight four-digit groups of the same 128-bit number and is idempotent. |
| `Ipv6Text.NibblesOfText` | frontend/src/app/shared/utils/dns-reverse.utils.ts:21-24 | Dropping the colons leaves 32 hexadecimal digits that spell the 128-bit number. |
| `ReverseZones.ZoneOfNetwork` | frontend/src/app/shared/utils/dns-reverse.utils.ts:31-62 | Every network written as text, slash and prefix 1 to 128 yields the zone of its first ceil(prefix / 4) nibbles. |
| `ReverseInput.NamesAZoneIff` | frontend/src/app/shared/utils/dns-reverse.utils.ts:31-62 | Exactly which texts name a zone: a slash, a number as prefix, and either an IPv6 text that expands with a prefix from 1 to 128, or four numbers. |
| `ReverseInput.PrefixIsRead` | frontend/src/app/shared/utils/dns-reverse.utils.ts:34-35 | A prefix is read after white space and a sign, up to the first character that is no digit. |
| `ReverseInput.SpacesAreTrimmed` | frontend/src/app/shared/utils/dns-reverse.utils.ts:33-33 | White space around a network does not matter. |
| `ReverseInput.TooManyGroups` | frontend/src/app/shared/utils/dns-reverse.utils.ts:3-15 | An address with `::` and more than eight groups cannot be expanded and has no PTR name. |
| `ReverseLookup.SuffixIsPrefixMatch` | frontend/src/app/shared/utils/dns-reverse.utils.ts:21-67 | The PTR name built from an address text ends with the zone name built from a network text exactly when the two 128-bit numbers agree on the prefix rounded up to a nibble, hence on the prefix itself when it is a multiple of 4, and no letter of these nibbles is a capital in one text and small in the other. |
| `ReverseZones.OneCaseMatches` | frontend/src/app/shared/utils/dns-reverse.utils.ts:21-67 | For addresses written with letters of one case that is membership in the network rounded up to a nibble. |
| `ReverseLookup.LongestPrefixMatch` | frontend/src/app/shared/utils/dns-reverse.utils.ts:70-87 | Among zones named from IPv6 networks and any zones outside `ip6.arpa.`, the best zone comes from a network with the longest prefix among those that contain the address and are spelled like it; there is none exactly when there is no such network. |
| `ReverseLookup.UnalignedZoneIsNarrower` | frontend/src/app/shared/utils/dns-reverse.utils.ts:52-58 | For every prefix that is not a multiple of 4 the IPv6 network has an address outside its zone. |
| `ReverseLookup.Ipv6NameRoundTrip` | frontend/src/app/shared/utils/dns-reverse.utils.ts:21-24 | The PTR name built from either text form reads back, as section 2.5 of RFC 3596 says, to the address. |
| `ReverseIpv4.Ipv4NameRoundTrip` | frontend/src/app/shared/utils/dns-reverse.utils.ts:17-19 | The PTR name of a dotted address reads back, as section 3.5 of RFC 1035 says, to the address. |
| `ReverseIpv4.ZoneOfIpv4Network` | frontend/src/app/shared/utils/dns-reverse.utils.ts:43-50 | Four parts that read as numbers yield the zone of the first one as it prints up to /8, of two up to /16, and of three beyond. |
| `ReverseIpv4.Ipv4SuffixMatch` | frontend/src/app/shared/utils/dns-reverse.utils.ts:43-82 | An IPv4 name matches a zone exactly when all octets of the zone but its last are equal and the address's octet ends with the digits of that last one. |
| `Ipv4Networks.ShortPrefixIsNarrower` | frontend/src/app/shared/utils/dns-reverse.utils.ts:43-50 | For 0 to 7, 9 to 15 and 17 to 23 the zone holds addresses of the network only, and one of the network is not even found by the suffix test. |
| `Ipv4Networks.LongPrefixIsWider` | frontend/src/app/shared/utils/dns-reverse.utils.ts:48-50 | From 25 on the zone holds the network and an address outside it, which is found too. |
| `Ipv4Networks.ZoneIsNetworkIff` | frontend/src/app/shared/utils/dns-reverse.utils.ts:43-50 | The zone holds, label by label, exactly the addresses of the network for prefixes 8, 16 and 24, and for no other. |
| `Ipv4Networks.SuffixTestIsRightIff` | frontend/src/app/shared/utils/dns-reverse.utils.ts:78-86 | The suffix test finds the zone for exactly the addresses that lie in it when, and only when, its first label has three digits. |
| `Ipv4Networks.FoundIsNetworkIff` | frontend/src/app/shared/utils/dns-reverse.utils.ts:43-86 | The zone is found for exactly the addresses of the network when, and only when, the prefix is 8, 16 or 24 and the first label of the zone has three digits. |
| `Ipv4BestZone.OwnZoneIsBest` | frontend/src/app/shared/utils/dns-reverse.utils.ts:70-87 | Among zones named from IPv4 networks and any zones outside `in-addr.arpa.`, the best zone of an address has the name of its first three octets whenever that one is listed. |
| `Ipv4BestZone.Ipv4BestZoneIsRightIff` | frontend/src/app/shared/utils/dns-reverse.utils.ts:70-87 | Otherwise the address lies in the best zone, or there is none, exactly when every zone that the suffix test finds has no more octets than some zone in which the address lies. |
| `ReverseIpv4.Ipv4MatchesANeighbour` | frontend/src/app/shared/utils/dns-reverse.utils.ts:82-82 | 192.168.11.5 is taken to lie in the zone of 192.168.1.0/24. |
| `SecretKey.RunKeeps` | backend/app/config.py:90-127 | Every interleaving of the workers' steps keeps the protocol invariant, and a published key never changes. |
| `SecretKey.KeyAgreement` | backend/app/config.py:83-127 | For any number of workers and any interleaving, with I/O failures, every worker that returns normally returns the configured or else the published key. |
| `SecretKey.LaterStartAgrees` | backend/app/config.py:86-96 | Workers of a later start on the same file return the key of the first one. |
| `SecretKey.ReturnsWithinEightSteps` | backend/app/config.py:90-127 | Over any interleaving, with any I/O failures, a worker that has taken eight steps of its own has returned. |
| `SecretKey.WithoutFailuresAllReturn` | backend/app/config.py:99-127 | When no I/O fails, no worker falls back to an ephemeral key or crashes. |
| `SecretKeyOutcomes.FallsBackIff` | backend/app/config.py:99-127 | A worker falls back to an ephemeral key exactly when one of its own steps of publishing fails. |
| `SecretKeyOutcomes.EphemeralIsOwn` | backend/app/config.py:98-127 | That key, like any it tries to publish, is the token it generated itself. |
| `SecretKeyOutcomes.CrashesIff` | backend/app/config.py:118-119 | A worker crashes exactly when it fails to read back the key of another one. |
| `SecretKeyOutcomes.KnownKeyIsReturned` | backend/app/config.py:90-95 | A configured key is returned after one step, and a key in the file after two that do not fail. |
| `SecretKey.BlankFileBreaksAgreement` | backend/app/config.py:93-119 | On a blank key file two workers can end with different keys, for any two tokens. |
| `SecretKey.AgreementCondition` | backend/app/config.py:83-127 | For two or more workers agreement is certain exactly when a key is configured or the file does not start out blank. |
| `Startup.RunKeeps` | backend/app/database.py:46-69 | Every interleaving of locked starts migrates the schema at most once, keeps the rows either initial or seeded once, and creates or promotes the administrator only when that is due. |
| `Startup.InitializedExactlyOnce` | backend/app/main.py:49-119 | With every worker taking the lock: at most one worker is inside; once one has passed, the schema was migrated exactly if it was not current, the thirteen record types were seeded exactly if the table was empty, the administrator was created exactly if it was missing, it is an administrator, and no other row changed. |
| `StartupProgress.LockedStartsNeverGetStuck` | backend/app/main.py:64-75 | After any run of locked starts, kills included, some worker can still move unless all have finished, and every step that changes anything brings the end nearer. |
| `StartupProgress.FairStartsAllPass` | backend/app/main.py:64-119 | A schedule without kills that serves every worker again and again ends with every worker having passed, after at most eight rounds for each. |
| `StartupProgress.KilledGivesBack` | backend/app/main.py:64-69 | A worker that is killed changes nothing but itself and the lock, which it gives back. |
| `Startup.OnlyKillsFail` | backend/app/main.py:71-119 | Under the lock no migration and no insert collides: a worker fails only when it is killed. |
| `Startup.StartCondition` | backend/app/main.py:49-62 | Without a kill, and with or without the lock, no worker ever fails in any interleaving exactly when fewer than two start, or the schema is current, the table is seeded and the administrator is there. |
| `AccountStore.Database.constructor` | backend/app/main.py:87-110 | The first start leaves one local administrator and the invariant, and nobody is locked out exactly when not both settings are pinned on. |
| `AccountStore.Database.UpdateUser` | backend/app/routers/admin.py:75-123 | Both guards and the update, with all error answers; the invariant is kept. |
| `AccountStore.Database.DeleteUser` | backend/app/routers/admin.py:158-196 | Refusals and removal; the invariant is kept. |
| `AccountStore.Database.ChangePassword` | backend/app/routers/auth.py:152-194 | Refusals, new password, revocation and fresh session; the invariant is kept. |
| `AccountStore.Database.OidcCallback` | backend/app/services/auth_service.py:104-147 | The account of an identity: found, linked once, created, or refused; the invariant is kept. |
| `AccountRequests.WhoIsAsking` | backend/app/dependencies.py:37-90 | The asking account is that of a session whose token carries its name, id and version while it is active, or without one that of the access token. |
| `AccountRequests.ChangePasswordExactly` | backend/app/routers/auth.py:152-194 | A password change succeeds exactly for a local account with its current password and a strong new one, and what it then sets; any other is refused with its status and changes nothing. |
| `AccountRequests.ResetPasswordExactly` | backend/app/routers/admin.py:126-155 | The same for a reset by an administrator. |
| `AccountRequests.CreateUserExactly` | backend/app/routers/admin.py:43-72 | A new local account needs an administrator, a free name and a strong password; the row it gets. |
| `AccountRequests.GivenPasswordSignsIn` | backend/app/services/admin_service.py:63-97 | After a reset or a creation exactly the given password signs in. |
| `AccountRequests.UpdateUserExactly` | backend/app/routers/admin.py:75-123 | An update is refused exactly when it would take something from the only super administrator or from the OIDC administrator that OIDC-only mode needs; else it sets what is submitted, and deactivation revokes the sessions. |
| `AccountRequests.DeleteUserExactly` | backend/app/routers/admin.py:158-196 | A deletion is refused exactly for the own account, a missing one, and the OIDC administrator that OIDC-only mode needs. |
| `AccountRequests.UpdateOidcExactly` | backend/app/routers/admin.py:310-330 | A form is refused exactly when it asks for OIDC-only mode without an active OIDC administrator; what is stored of each field. |
| `AccountRequests.EffectiveIs` | backend/app/services/admin_service.py:329-343 | The settings in force: the pinned value, else the stored one, else off. |
| `AccountRequests.LoginExactly` | backend/app/routers/auth.py:70-99 | A login starts a session of the named account and changes no row, or is refused with its status. |
| `AccountRequests.LogoutExactly` | backend/app/routers/auth.py:102-132 | A logout raises the version of the account whose session it is, and nothing else. |
| `AccountRequests.OidcCallbackExactly` | backend/app/services/auth_service.py:104-147 | An identity signs in to the account that bears it; else it is linked to the unbound OIDC account of that name; else, if the name is free, it gets a new account without rights; else it is refused. |
| `AccountRuns.RunKeeps` | backend/app/services/auth_service.py:116-147 | In every reachable state, whichever free ids are given out, user names and identities are unique, local accounts bear no identity, and there is a super administrator. |
| `AccountRuns.RunEvolves` | backend/app/services/admin_service.py:81-112 | Over any run, until it is deleted, an account keeps its name, kind and bound identity, and its version never goes down. |
| `AccountRuns.StepKeepsAdmin` | backend/app/routers/admin.py:92-100 | No request removes the last super administrator. |
| `AccountRuns.RevocationIsPermanent` | backend/app/services/auth_service.py:55-60 | A token that a sign-in gave is never accepted again after a logout, password change, password reset or deactivation of its account, over any run before and after in which the account is not deleted, reactivation included. |
| `AccountRevival.RevivedOnNewAccount` | backend/app/models/user.py:19-20 | A revoked token is accepted again only after its account was deleted, and on an account of the same id and name. |
| `AccountRevival.RevivalCondition` | backend/app/models/user.py:19-20 | Where any free id may be given out, some run makes a revoked token valid again exactly when an administrator is active. |
| `AccountRevival.SqliteRevivalCondition` | backend/app/config.py:13-13 | Where ids are given out as SQLite does, the one after the highest, some run does exactly when an administrator is active, an account has a smaller id and, if both settings are pinned on and an active OIDC administrator has this id or a greater one, an OIDC account has a smaller id. |
| `AccountRuns.ChangedPasswordSessionWorks` | backend/app/routers/auth.py:188-193 | The token that a password change returns is accepted by the state it leaves. |
| `AccountRuns.SignInWorksIfActive` | backend/app/routers/auth.py:90-99 | A new session is accepted exactly while the account is active: signing in does not check that. |
| `AccountRevival.ReusedIdRevivesToken` | backend/app/models/user.py:12-21 | A concrete run: delete an account, create one of its name, and the revoked token is accepted. |
| `AccountSafety.CallbackBinds` | backend/app/services/auth_service.py:116-147 | The account an identity signs in to bears it afterwards and is not a local one. |
| `AccountSafety.IdentityIsStable` | backend/app/services/auth_service.py:104-147 | Until its account is deleted an identity resolves to that account, whatever user name is sent; the account is never rebound and other identities sign in elsewhere. |
| `AccountSafety.LocalAccountIsNeverTaken` | backend/app/services/auth_service.py:124-130 | Over any run, until it is deleted, a local account stays local and unbound. |
| `AccountSafety.LoginSucceedsIff` | backend/app/routers/auth.py:77-98 | Login signs in exactly when local login is not disabled and an account has that name and password. |
| `AccountSafety.ChangedPasswordIsTheOnlyOne` | backend/app/routers/auth.py:172-192 | After a password change the new password, and no other, signs in. |
| `AccountSafety.NeverLockedOut` | backend/app/routers/admin.py:101-118 | Over any run of one process from a state that is not locked out, under safe pins, there is a super administrator, and an active OIDC one whenever OIDC is enabled with local login disabled. |
| `AccountSafety.UnsafePinsLockOut` | backend/app/routers/admin.py:317-328 | With exactly one of the two settings pinned on and the other left to the form, a submitted form can lock everybody out. |
| `AccountSafety.GuardCondition` | backend/app/routers/admin.py:317-328 | While the pins do not change, the guards keep every state that is not locked out so exactly when the pins are not of that kind. |
| `AccountLockOut.LockOutCondition` | backend/app/routers/admin.py:101-118 | Over any sequence of processes from the first start, each under pins from a set, nobody is ever locked out exactly when every member of the set pins a setting off, or nothing is ever pinned. |
| `AccountLockOut.EarnedLockOutCondition` | backend/app/routers/admin.py:101-118 | If access tokens are presented only by accounts that have signed in, exactly then, or when every member of the set pins local login as disabled and none pins OIDC on. |
| `AccountSafety.LastActiveAdminLost` | backend/app/routers/admin.py:89-118 | The last active administrator disappears exactly when it demotes or deactivates itself while an inactive one is counted beside it, unless it is an OIDC account in OIDC-only mode. |
| `AccountSafety.SelfDeactivation` | backend/app/routers/admin.py:92-100 | A concrete state in which the only active administrator deactivates itself. |
| `ZoneImport.BuildPatch` | backend/app/routers/zones/operations.py:84-99 | The two loops build the patch that the rows below characterise. |
| `ZoneImport.ImportIsCorrect` | backend/app/routers/zones/operations.py:81-100 | Applying the patch to the current zone gives exactly the current SOA and NS RRsets and the imported ones of other types. |
| `ZoneImport.ImportKeyByKey` | backend/app/routers/zones/operations.py:81-100 | Key by key: type SOA and NS as in the current zone; any other key is there exactly when the file has it, with the data of its last RRset. |
| `ZoneImport.ImportTwiceIsOnce` | backend/app/routers/zones/operations.py:81-100 | Importing the same file again changes nothing. |
| `ZoneImport.ManagedNeverTouched` | backend/app/routers/zones/operations.py:83-91 | The patch names no SOA or NS RRset. |
| `ZoneImport.PatchRepeatsOnlyInput` | backend/app/routers/zones/operations.py:84-124 | The patch names a (name, type) twice exactly when the importable RRsets or the dropped ones do. |
| `ZoneImport.RrsigSetsRepeat` | backend/app/routers/zones/operations.py:84-124 | Two RRSIG sets at one name do so. |
| `ZoneImport.OrderIsIrrelevant` | backend/app/routers/zones/operations.py:86-100 | A patch without repetitions gives the same zone in any order. |
| `Settings.EnvOverrides` | backend/app/config.py:140-152 | Exactly the supplied settings of one prefix, by their name without it. |
| `Settings.ListOverrideRoundTrip` | backend/app/services/audit_service.py:193-198 | A list joined with commas in the environment is stored as the list a form would submit. |
| `Settings.OtherValuesAreVerbatim` | backend/app/services/audit_service.py:193-226 | Only submitted lists of the three alert filters, and only their pinned text, are rewritten. |
| `Settings.NoSettingsIff` | backend/app/services/audit_service.py:206-220 | There are no settings exactly when there is neither a row nor a pinned field. |
| `Settings.Connector.Get` | backend/app/services/admin_service.py:329-343 | The row, or a fresh one, with the overrides on top; nothing is stored. |
| `Settings.Connector.Upsert` | backend/app/services/admin_service.py:346-363 | The submitted fields that are not pinned are stored, all others stay. |
| `Settings.OverridesNeverLeak` | backend/app/services/admin_service.py:329-363 | Over any run of forms and of restarts with other pins, a field reads as its pinned value while pinned, else as the last value submitted while unpinned, else as the initial one. |
| `Settings.SmtpOverridesNeverLeak` | backend/app/services/audit_service.py:193-241 | The same for the SMTP settings, whose lists are stored as JSON and pinned as comma-separated text. |
| `Settings.BuildMatchesUpsert` | backend/app/services/audit_service.py:223-256 | The configuration built for a test equals the one in force after saving the form exactly when every field neither submitted nor pinned holds its default. |
| `Settings.FullFormIsTestedAsSaved` | backend/app/services/audit_service.py:244-256 | For a whole form the two are always equal. |
| `SqlSplitter.CommentsDoNotMatter` | backend/scripts/init_pdns_schema.py:48-51 | Whole-line comments of any text, and block comments free of `--` and of an inner closing mark, before any statement or at the end, and empty statements, do not change what is parsed. |
| `SqlSplitter.SplitterRoundTrip` | backend/scripts/init_pdns_schema.py:48-51 | Joining trimmed statements free of `;`, `--` and the opening mark, and parsing, gives the same list. |
| `SqlSplitter.TrailingCommentIsDropped` | backend/scripts/init_pdns_schema.py:49-49 | A `--` comment after other text is dropped up to the end of its line, or of the script. |
| `SqlSplitter.UnclosedCommentStays` | backend/scripts/init_pdns_schema.py:50-50 | Text without a closing mark keeps its opening marks. |
| `Migration.Normalized` | backend/app/migrations/versions/20261030_0001_initial_schema.py:288-288 | The zone name is the zone without its final dots, and one dot. |
| `Migration.LegacyDatabase.UpgradeLegacySqlite` | backend/app/migrations/versions/20261030_0001_initial_schema.py:238-322 | The whole upgrade, or, when the unique index refuses an insert, the added columns with their defaults and nothing else. |
| `Migration.LegacyDatabase.BindZones` | backend/app/migrations/versions/20261030_0001_initial_schema.py:266-289 | Missing columns take their defaults, and a new zone column the first zone of each ACME key. |
| `Migration.LegacyDatabase.SelectLegacy` | backend/app/migrations/versions/20261030_0001_initial_schema.py:298-304 | The owned `api` rows, in order. |
| `Migration.LegacyDatabase.DeleteApi` | backend/app/migrations/versions/20261030_0001_initial_schema.py:321-322 | The rows of other types, in order. |
| `Migration.UpgradeConserves` | backend/app/migrations/versions/20261030_0001_initial_schema.py:298-322 | There are as many new tokens as owned `api` rows; old tokens stay; no row is lost but, when something was moved, those of type `api`. |
| `Migration.EveryApiKeyMoves` | backend/app/migrations/versions/20261030_0001_initial_schema.py:298-320 | Every owned `api` row becomes the token of its hash, with its owner, name, prefix, comment and date. |
| `Migration.OnlyApiKeysMove` | backend/app/migrations/versions/20261030_0001_initial_schema.py:298-320 | Every token that was not there before comes from such a row. |
| `Migration.OtherKeysStay` | backend/app/migrations/versions/20261030_0001_initial_schema.py:321-322 | Every row of another type stays, and the `api` rows only if none of them has an owner. |
| `Migration.FailureKeepsData` | backend/app/migrations/versions/20261030_0001_initial_schema.py:238-265 | A failed upgrade leaves every row and token, with the defaults of the added columns. |
| `Migration.UpgradeSucceedsIff` | backend/app/migrations/versions/20261030_0001_initial_schema.py:305-320 | The upgrade succeeds exactly when no moved hash is already a token's and no two moved rows share one. |
| `Migration.BoundKeepsKey` | backend/app/migrations/versions/20261030_0001_initial_schema.py:227-289 | Rows keep their data; the zone is set exactly when the column is new, to the first zone with one final dot. |
| `Migration.UpgradeTwiceIsOnce` | backend/app/migrations/versions/20261030_0001_initial_schema.py:238-322 | A second run changes nothing. |
| `Migration.RetryCondition` | backend/app/migrations/versions/20261030_0001_initial_schema.py:266-289 | A run that succeeds after a failed one does what it would have done at once exactly when the zone column was there or no ACME key had zones to be bound to. |

## Left out

- LimiterRuns.RefinesReference: does not cover clock readings that arrive out of order, for which it is false; `LimiterSkew.WindowSafetyWithSkew` bounds what can go wrong then.
- LimiterMemory.MemoryBound: does not count the empty deques that keys with a limit below 1 leave until the next sweep.
- AccountLockOut.LockOutCondition: lets any account present an access token; `AccountLockOut.EarnedLockOutCondition` asks that its owner has signed in before. How tokens are made, expire and are deleted is not modelled.
- AccountRevival.SqliteRevivalCondition: is about one process; a restart under other pins can lift the condition on OIDC administrators.
- Startup.StartCondition: takes a migration as one step that succeeds or fails as a whole.
- ReverseZones.ZoneOfNetwork: does not cover addresses with an embedded dotted IPv4 part, the third text form, which the code does not expand.
- ReverseIpv4.ZoneOfIpv4Network: does not cover white space in front of the first part.
- Ipv4Networks.FoundIsNetworkIff: is stated for addresses written without leading zeros and networks whose parts read as whole numbers up to 255.
- Startup.InitializedExactlyOnce: does not cover workers that already serve requests and change the same rows while others start.
- SecretKey.KeyAgreement: does not model `FileExistsError` from `mkdir` or `mkstemp`, nor undecodable bytes in the key file.
- Migration.UpgradeConserves: treats `zones` as a list of strings; a JSON value of another shape, on which the code raises, is not modelled, nor are the changes of column types and the settings columns.
- AccountStore.Database.OidcCallback: takes the verified claims as given; the flow cookie, code exchange and token verification are not modelled.
- AccountStore.Database.UpdateUser: does not model e-mail addresses, account memberships and ACME keys of users, nor the expiry of sessions.
- ZoneImport.ImportIsCorrect: takes the parsed zone file and the current RRsets as given; parsing, the size limit and the answers of PowerDNS are not modelled.
- ClientIp: the parsing of the configured networks is not modelled.
- Security headers, cookies, audit log, syslog and e-mail sending: no state or protocol of interest.
- Zones, DNSSEC, TSIG keys, views, networks, catalogues and the other thin routers: single-branch facts.
- The user interface, apart from the reverse DNS utilities.
- The discovery and JWKS caches: their freshness depends on other processes.

# Verified models of posix-next

A Dafny 4.11 model of the parts of posix-next that hold algorithms of their own, with proofs about
every input, every run or every reachable state. `dafny verify dfyconfig.toml` checks all of it.

| files | what they cover |
|---|---|
| `Common.dfy` | what several models share |
| `Ctype.dfy`, `Glob.dfy`, `ClassKey.dfy`, `Fnmatch.dfy`, `GlobLaws.dfy`, `GlobRules.dfy` | `fnmatch`: a pattern is read as a token list, a match is an alignment of tokens with stretches of the string, and the backtracking matcher is proved equal to that relation up to its exact recursion budget |
| `Gregorian.dfy`, `Gmtime.dfy` | `gmtime_r`: the closed era formulas against the day-by-day Gregorian calendar, for every integer |
| `RwLock.dfy`, `RwLockCalls.dfy` | the reader-writer lock as a step machine, one semaphore operation a step |
| `Barrier.dfy` | the barrier as a step machine: counting without any premise, the wake-up chain with one |
| `Philosophers.dfy` | the dining philosophers for every N of at least 2 |
| `WordBits.dfy`, `SignalSets.dfy`, `SignalMap.dfy` | signal sets as word arrays, and the renumbering between the POSIX and the kernel signals |
| `EnvMap.dfy`, `EnvTable.dfy` | the environment table against a finite map |
| `NamedSem.dfy` | the registry of named semaphores and its reference counts |
| `Decimal.dfy`, `Strfmon.dfy`, `StrfmonText.dfy` | the digit emitter of `strfmon` |
| `Inet.dfy` | `inet_addr` and `inet_ntoa` |
| `Strtok.dfy` | whole runs of `strtok_r` |
| `Getopt.dfy` | the short-option path of `zephyr_getopt` |

## How the models are built

Code that moves pointers or updates objects is a method with a loop or a class with fields, and its
`ensures` clauses tie it to a specification that does not mention the code: an alignment of tokens,
a calendar walked one day at a time, a set of signals, a finite map, the text of an amount, the
maximal separator-free stretches of a string. Beside each specification stand laws that do not mention
it: what a pattern text takes in plain characters, what a whole call or a sequence of calls leaves
behind, what a reader makes of an output. Concurrent code is a state machine whose steps are
the operations on the synchronisation objects; its theorems quantify over all runs.

Some properties one would expect turn out false of the code. Each has a concrete failing family and
the exact condition under which the code does what is expected:

- `fnmatch` gives up, and reports no match, on a pattern with 64 or more searching stars
  (`GlobLaws.BudgetIsTight`, `Fnmatch.FnmatchTop`).
- The class key of `rangematch_cc` keeps only eight bytes, so `[:fooxdigit:]` names the class xdigit,
  while every five-letter name is exact (`ClassKey.KeyNamesClass`).
- The reader-writer lock is exclusive exactly when a reader's two takes, and its give, test and give,
  run undisturbed and read locks stay within the limit (`RwLock.ExclusiveExactly`).
- A thread that re-enters the barrier before a round has drained can cost another one its signal,
  exactly when the count is at least 2 and there are that many threads
  (`Barrier.ThreadsAreLostExactly`).
- `inet_addr` accepts parts above 255, whose high bits it or-s into the byte before
  (`Inet.QuadGivesItsBytesExactly`, `Inet.OversizedPartSpills`), and a text whose last part is missing,
  exactly when four digits are there (`Inet.AcceptedExactly`).
- `zephyr_getopt` passes over letters of a cluster that follows an option with an argument
  (`Getopt.NextIsProperExactly`), and a call fails to advance exactly when the place after a letter
  does not fit 16 bits (`Getopt.CallsAdvanceExactly`): clusters of flags then never end
  (`Getopt.StuckBeyond16Bits`, `Getopt.LongClusterNeverEnds`).
- The output of `strfmon` can be read back exactly when its fills are no digits that count
  (`Strfmon.TextReadsBackExactly`).
- Signal sets keep the reserved signals out exactly when the real-time signals start above those that
  the set has room for (`SignalSets.FillKeepsReservedOut`, `SignalSets.ReservedStayOutExactly`).

## Model

| member | source | states |
|---|---|---|
| `Fnmatch.FnmatchTop` | lib/posix/c_lib_ext/fnmatch.c:373-376 | returns only match or no match, and match exactly when some alignment of the pattern's tokens with the whole string exists and fewer than 64 stars need a search |
| `Fnmatch.Fnmatchx` | lib/posix/c_lib_ext/fnmatch.c:252-371 | with budget 0 gives up; with any other budget decides, from any position, whether the rest of the string matches the rest of the pattern within that budget |
| `Fnmatch.StarCase` | lib/posix/c_lib_ext/fnmatch.c:288-332 | collapsing stars and both shortcuts leave the verdict of the remaining match unchanged |
| `Fnmatch.SearchStar` | lib/posix/c_lib_ext/fnmatch.c:321-332 | the backtracking loop finds a place to go on exactly when there is one, spending one unit of budget |
| `Fnmatch.BracketCase` | lib/posix/c_lib_ext/fnmatch.c:333-355 | a bracket, or its first character taken literally when it is unterminated, consumes one character exactly when the bracket token covers it |
| `Fnmatch.PlainCase` | lib/posix/c_lib_ext/fnmatch.c:274-367 | question marks, escapes and literal characters consume one character exactly when their token covers it |
| `Fnmatch.Rangematch` | lib/posix/c_lib_ext/fnmatch.c:165-250 | unterminated, slash-aborted or well formed is decided by the pattern alone, and so is the end; on a well-formed bracket the verdict is membership flipped by a leading ! or ^ |
| `Fnmatch.ScanMembers` | lib/posix/c_lib_ext/fnmatch.c:191-242 | the member loop computes membership in the listed characters, ranges and classes |
| `Fnmatch.MatchMember` | lib/posix/c_lib_ext/fnmatch.c:201-241 | one member, escaped, class or element, is tested and passed over as the pattern reads |
| `Fnmatch.MatchElement` | lib/posix/c_lib_ext/fnmatch.c:218-241 | a character or a range, both ends folded |
| `Fnmatch.RangematchCc` | lib/posix/c_lib_ext/fnmatch.c:75-154 | recognises a class, tests the character against it and moves past its bracket, or leaves the position alone |
| `Fnmatch.CollapseStars` | lib/posix/c_lib_ext/fnmatch.c:290-293 | two stars mean what one means, for the match and for the budget |
| `Fnmatch.TrailingStar` | lib/posix/c_lib_ext/fnmatch.c:301-312 | a star at the end matches exactly under the shortcut's test |
| `Fnmatch.StarBeforeSlash` | lib/posix/c_lib_ext/fnmatch.c:313-319 | a star before a slash under FNM_PATHNAME has exactly one place to end, the next slash |
| `Fnmatch.SearchingStar` | lib/posix/c_lib_ext/fnmatch.c:321-332 | any other star succeeds exactly when the rest succeeds from some place it may reach with one unit less |
| `Fnmatch.NoEmptySuffix` | lib/posix/c_lib_ext/fnmatch.c:322-331 | not trying the empty rest of the string loses nothing |
| `Fnmatch.AlignedMember` | lib/posix/c_lib_ext/fnmatch.c:201-241 | with no dangling escape the scanner never reads behind the end of the pattern inside a bracket |
| `Glob.MatchFromIsMatches` | lib/posix/c_lib_ext/fnmatch.c:252-371 | matching token by token finds an alignment exactly when one exists |
| `ClassKey.KeyIsLast8` | lib/posix/c_lib_ext/fnmatch.c:101-109 | the 64-bit key of a class body is its last eight bytes read in base 256 |
| `ClassKey.Key5Exact` | lib/posix/c_lib_ext/fnmatch.c:85-87 | a five-letter key belongs to exactly one body, of any length |
| `ClassKey.Key6Exact` | lib/posix/c_lib_ext/fnmatch.c:88-90 | the xdigit key belongs to exactly the bodies that end in xdigit:] |
| `ClassKey.KeyNamesClass` | lib/posix/c_lib_ext/fnmatch.c:111-150 | the switch on the key names the same class as comparing texts |
| `GlobLaws.ReadWritten` | lib/posix/c_lib_ext/fnmatch.c:165-371 | every list of stars, question marks, brackets with their ranges and classes, quoted literals and plain unquoted ones, written out as a pattern, is read back as that list |
| `GlobLaws.BracketsAreNotEmpty` | lib/posix/c_lib_ext/fnmatch.c:193-196 | a well-formed bracket has a member, so writing only such brackets leaves none out |
| `GlobLaws.QuotedTextMatchesItself` | lib/posix/c_lib_ext/fnmatch.c:356-367 | a text with every character escaped matches exactly the strings that are that text up to folding, and their leading directories where allowed |
| `GlobLaws.BudgetIsTight` | lib/posix/c_lib_ext/fnmatch.c:258-260 | for every n a pattern of n searching stars that matches by meaning, within the budget exactly when n is below 64 |
| `GlobLaws.CaseIsInvisible` | lib/posix/c_lib_ext/fnmatch.c:156-163 | strings equal after folding match the same patterns |
| `GlobRules.RangeTakes` | lib/posix/c_lib_ext/fnmatch.c:218-249 | [lo-hi], [!lo-hi] and [^lo-hi] take exactly the characters from lo to hi, both included, or exactly the others, in lower case under FNM_CASEFOLD |
| `GlobRules.ListTakes` | lib/posix/c_lib_ext/fnmatch.c:191-249 | a bracket around ordinary characters, with either mark or none, takes exactly those listed, or the others |
| `GlobRules.DashAtEndTakes` | lib/posix/c_lib_ext/fnmatch.c:220-241 | a - before the closing bracket is a character like any other |
| `GlobRules.ClassTakes` | lib/posix/c_lib_ext/fnmatch.c:111-150 | [[:digit:]] and the eleven others take exactly the ASCII codes of the class |
| `GlobRules.BracketTakes` | lib/posix/c_lib_ext/fnmatch.c:165-250 | every bracket, with any members in any order, takes exactly the characters, ranges and classes it names, or the others |
| `GlobRules.NamesIsListed` | lib/posix/c_lib_ext/fnmatch.c:218-241 | the characters a bracket names, range ends included and by ASCII code, are the ones the matcher lists |
| `GlobRules.QuestionTakes` | lib/posix/c_lib_ext/fnmatch.c:274-287 | ? takes any character but a / under FNM_PATHNAME and a period at the front under FNM_PERIOD |
| `GlobRules.StarTakes` | lib/posix/c_lib_ext/fnmatch.c:288-332 | * alone takes every string but those the flags keep from it |
| `GlobRules.PeriodIsHidden` | lib/posix/c_lib_ext/fnmatch.c:281-299 | under FNM_PERIOD no pattern that goes on with *, ? or [ matches a period at the front, or after a / under FNM_PATHNAME |
| `GlobRules.SlashesAreSpelledOut` | lib/posix/c_lib_ext/fnmatch.c:278-280 | under FNM_PATHNAME a string that matches has exactly as many slashes as the pattern spells out |
| `GlobRules.TextTakes` | lib/posix/c_lib_ext/fnmatch.c:356-367 | escaped text matches that text, in any case under FNM_CASEFOLD, and what goes on with a / under FNM_LEADING_DIR |
| `GlobRules.PlainTextTakes` | lib/posix/c_lib_ext/fnmatch.c:361-367 | so does text without special characters, under all flags |
| `GlobRules.OpenBracketIsText` | lib/posix/c_lib_ext/fnmatch.c:346-348 | a [ that nothing closes is a character like any other |
| `GlobRules.SlashInBracketTakesNothing` | lib/posix/c_lib_ext/fnmatch.c:199-200 | under FNM_PATHNAME a bracket with a / in it matches no string |
| `Gregorian.NextIsOneDay` | lib/posix/c_lang_support_r/gmtime_r.c:22-35 | the day count grows by one with every step of the calendar, month lengths and leap rule included |
| `Gregorian.PreviousUndoesNext` | lib/posix/c_lang_support_r/gmtime_r.c:22-35 | the backward calendar step is the inverse of the forward one |
| `Gregorian.DaysFromInjective` | lib/posix/c_lang_support_r/gmtime_r.c:22-35 | a day number belongs to one date only |
| `Gregorian.DaysFromDateAt` | lib/posix/c_lang_support_r/gmtime_r.c:22-35 | walking z days from 1970-01-01, forward or back, gives a valid date with day count z |
| `Gmtime.EraIsFloor` | lib/posix/c_lang_support_r/gmtime_r.c:40-43 | C division with the negative correction is the floor, so the day of the era is in range for either sign |
| `Gmtime.YearOfEraCorrect` | lib/posix/c_lang_support_r/gmtime_r.c:44-47 | the year formula gives a year of the era and a day within it, the last day of a long year only in leap years |
| `Gmtime.MonthCorrect` | lib/posix/c_lang_support_r/gmtime_r.c:48-54 | the 153-day month formula gives a valid date at the right day of its year |
| `Gmtime.CivilIsDay` | lib/posix/c_lang_support_r/gmtime_r.c:36-54 | counting days up to the computed date gives back the day number |
| `Gmtime.CivilIsDateAt` | lib/posix/c_lang_support_r/gmtime_r.c:36-54 | the closed formulas give the date reached by z calendar steps, for every integer z |
| `Gmtime.CivilUndoesDaysFrom` | lib/posix/c_lang_support_r/gmtime_r.c:36-54 | every valid date comes back from its day count |
| `Gmtime.YearDayOfEra` | lib/posix/c_lang_support_r/gmtime_r.c:56-72 | the day of the year counts from 1 January of the same year |
| `Gmtime.TimeCivilFromDays` | lib/posix/c_lang_support_r/gmtime_r.c:36-73 | year, month and day of the calendar date, the weekday counted from a Thursday, the day of the year, and no other field |
| `Gmtime.SplitEra` | lib/posix/c_lang_support_r/gmtime_r.c:40-43 | era and day of era recompose the shifted day number |
| `Gmtime.SplitYear` | lib/posix/c_lang_support_r/gmtime_r.c:44-47 | year and day recompose the day of the era |
| `Gmtime.GmtimeR` | lib/posix/c_lang_support_r/gmtime_r.c:82-99 | the fields recompose to the time given, of either sign, each in its range |
| `Gmtime.YearFitsExactly` | lib/posix/c_lang_support_r/gmtime_r.c:52 | tm_year is exact exactly for the days of the years that fit an int |
| `Gmtime.IntermediatesFit` | lib/posix/c_lang_support_r/gmtime_r.c:39-99 | within 2^55 seconds of the epoch every intermediate value fits its C type |
| `RwLock.InvStep` | lib/posix/options/rw_locks/rwlock.c:252-324 | every step keeps the invariant: reader_active is 0 exactly when somebody is inside, rd_sem is the limit minus the read locks, wr_sem is 0 exactly when one thread is in its window |
| `RwLock.RunsAreExclusive` | lib/posix/options/rw_locks/rwlock.c:252-324 | in every reachable state there is at most one writer, and no reader beside it |
| `RwLock.ReleasedIsInitial` | lib/posix/options/rw_locks/rwlock.c:61-64 | whenever everything is released all three semaphores and the owner are as initialised |
| `RwLock.WaitingWriterCanEnter` | lib/posix/options/rw_locks/rwlock.c:312-314 | a waiting writer can enter as soon as no read lock is held |
| `RwLock.ReadersOnlyShrink` | lib/posix/options/rw_locks/rwlock.c:301-318 | while a writer waits no thread gains a read lock |
| `RwLock.TimedOutAttemptIsInvisible` | lib/posix/options/rw_locks/rwlock.c:315-318 | the other threads' steps are possible, and end in the same state, as if the attempt had never been made |
| `RwLock.GivesMustBeUndisturbed` | lib/posix/options/rw_locks/rwlock.c:266-274 | for every limit, a run in which the last reader is interrupted ends with a writer beside a reader |
| `RwLock.TakesMustBeUndisturbed` | lib/posix/options/rw_locks/rwlock.c:282-285 | for every limit, a run in which an entering reader is interrupted ends with a writer beside a reader |
| `RwLock.ReadersMustStayBounded` | lib/posix/options/rw_locks/rwlock.c:266-285 | for every limit, one read lock more than the limit ends with a writer beside a reader, however undisturbed the stretches are |
| `RwLock.ExclusiveExactly` | lib/posix/options/rw_locks/rwlock.c:252-324 | every run of any number of threads is exclusive if and only if both stretches run undisturbed and read locks stay within the limit |
| `RwLockCalls.WriteLockCall` | lib/posix/options/rw_locks/rwlock.c:293-324 | taking a free lock for writing runs to its end: owner set, both semaphores taken |
| `RwLockCalls.WriteUnlockCall` | lib/posix/options/rw_locks/rwlock.c:261-265 | a write unlock runs to its end and gives both semaphores back |
| `RwLockCalls.ReadLockCall` | lib/posix/options/rw_locks/rwlock.c:278-291 | taking a lock for reading that no writer has runs to its end: one read lock more, wr_sem back |
| `RwLockCalls.ReadUnlockCall` | lib/posix/options/rw_locks/rwlock.c:266-274 | giving back a read lock that is not the last leaves reader_active taken |
| `RwLockCalls.LastReadUnlockCall` | lib/posix/options/rw_locks/rwlock.c:266-274 | giving back the last one gives reader_active back |
| `RwLockCalls.GiveUpCall` | lib/posix/options/rw_locks/rwlock.c:315-318 | a writer that times out gives wr_sem back and changes nothing else |
| `RwLockCalls.WriterKeepsOthersOut` | lib/posix/options/rw_locks/rwlock.c:282-285 | nobody gets past wr_sem while a writer has the lock |
| `RwLockCalls.ReadersKeepWritersOut` | lib/posix/options/rw_locks/rwlock.c:312-314 | no writer gets past reader_active while a read lock is held |
| `RwLockCalls.SomebodyGoesOn` | lib/posix/options/rw_locks/rwlock.c:252-324 | whenever calls are under way, one of them can go on |
| `RwLockCalls.CanAlwaysBeReleased` | lib/posix/options/rw_locks/rwlock.c:252-324 | from every state of every run all calls can be finished and all locks given back, and the lock is then as initialised |
| `Barrier.CountStep` | lib/posix/options/barriers/barrier.c:45-71 | every step keeps the counting invariant, whoever re-enters when |
| `Barrier.ArrivalsAreCounted` | lib/posix/options/barriers/barrier.c:48-55 | arrivals are max times the resets plus count, and each reset belongs to one thread that returns or will return PTHREAD_BARRIER_SERIAL_THREAD |
| `Barrier.ZeroMeansRoundComplete` | lib/posix/options/barriers/barrier.c:57-71 | no thread returns before a reset later than its own arrival |
| `Barrier.InitCounts` | lib/posix/options/barriers/barrier.c:74-93 | a fresh barrier with a count above zero satisfies the counting invariant |
| `Barrier.RoundStep` | lib/posix/options/barriers/barrier.c:45-71 | with no re-entry before a round has drained every step keeps the hand-off invariant |
| `Barrier.SleeperIsOwedASignal` | lib/posix/options/barriers/barrier.c:57-66 | once count is 0, whenever a thread sleeps another one still has to signal |
| `Barrier.DrainStep` | lib/posix/options/barriers/barrier.c:57-71 | while a round drains every step lowers the measure |
| `Barrier.DrainCanGoOn` | lib/posix/options/barriers/barrier.c:57-71 | while a round drains some thread can take a step |
| `Barrier.EveryoneReturns` | lib/posix/options/barriers/barrier.c:57-71 | every run of five steps a thread from the reset passes through a state in which all have returned |
| `Barrier.RoundHasMaxThreads` | lib/posix/options/barriers/barrier.c:50-55 | at the reset exactly max threads are inside, all of this round |
| `Barrier.ReentryLosesAThread` | lib/posix/options/barriers/barrier.c:57-61 | for every count from 2 on and at least that many threads, a reachable state in which a thread sleeps in a round that is over and nobody owes a signal; with no further threads nothing can move any more |
| `Barrier.ThreadsAreLostExactly` | lib/posix/options/barriers/barrier.c:34-72 | without the premise a thread can be lost if and only if the count is at least 2 and there are enough threads to complete a round |
| `Barrier.AloneNobodyWaits` | lib/posix/options/barriers/barrier.c:50-57 | on a barrier for one nobody ever waits |
| `Barrier.TooFewNeverReset` | lib/posix/options/barriers/barrier.c:48-57 | with fewer threads than the count no round is ever complete, in any run |
| `Barrier.GuardedRunsLoseNobody` | lib/posix/options/barriers/barrier.c:34-72 | with the premise no run loses a thread |
| `Barrier.WholeRound` | lib/posix/options/barriers/barrier.c:34-72 | for every count and enough threads: max arrivals complete a round, all return, exactly one as the serial thread, and the counter is back at 0 |
| `Philosophers.ForksAreOrdered` | samples/posix/philosophers/src/main.c:149-156 | everybody takes the lower numbered fork first |
| `Philosophers.InvStep` | samples/posix/philosophers/src/main.c:142-180 | a fork is owned exactly by the philosopher whose place in the loop holds it, and every step keeps that |
| `Philosophers.NeighboursNeverEatTogether` | samples/posix/philosophers/src/main.c:137-180 | in every reachable state |
| `Philosophers.EveryoneCanStillEat` | samples/posix/philosophers/src/main.c:137-180 | from every reachable state there is a continuation in which any chosen philosopher eats |
| `Philosophers.FreeFork` | samples/posix/philosophers/src/main.c:158-172 | any fork can become free with only holders of it or of higher forks moving |
| `Philosophers.NeverAllBlocked` | samples/posix/philosophers/src/main.c:137-180 | in every reachable state somebody can move |
| `Philosophers.WholeMeal` | samples/posix/philosophers/src/main.c:158-172 | with both forks free a philosopher takes them, eats, puts them down, and the table is as before |
| `WordBits.ClearLowest` | lib/posix/options/shared/z_sig_set.c:194 | word AND word minus 1 clears the lowest set bit and nothing else, and gets smaller |
| `WordBits.AndMask` | lib/posix/options/signals/signal.c:20 | the mask is the remainder by the word width |
| `SignalSets.IndexInBounds` | lib/posix/options/signals/signal.c:19-20 | a signal that fits has its word inside the array, and word and bit determine the signal |
| `SignalSets.WriteSignal` | lib/posix/options/signals/signal.c:90 | writing one bit adds or removes that one signal |
| `SignalSets.SigEmptySet` | lib/posix/options/signals/signal.c:50-54 | leaves no member |
| `SignalSets.SigFillSet` | lib/posix/options/signals/signal.c:57-73 | leaves all signals that fit but those from the cancel signal to below SIGRTMIN |
| `SignalSets.SigChangeSet` | lib/posix/options/signals/signal.c:76-113 | refuses invalid and unfitting signals without change, else adds or removes exactly that signal |
| `SignalSets.SigIsMember` | lib/posix/options/signals/signal.c:116-131 | membership in the abstract set, or -1 |
| `SignalSets.ReservedStayOut` | lib/posix/options/signals/signal.c:24-113 | where the reserved signals that fit are below SIGRTMIN, no sequence of calls puts one into the set |
| `SignalSets.ReservedStayOutExactly` | lib/posix/options/signals/signal.c:24-113 | no sequence of calls ever does, if and only if those that fit are below SIGRTMIN |
| `SignalSets.FillKeepsReservedOut` | lib/posix/options/signals/signal.c:65-70 | sigfillset leaves them out if and only if those that fit are below SIGRTMIN |
| `SignalSets.SigApplyAll` | lib/posix/options/signals/signal.c:50-113 | any sequence of calls on a word array of any size has the effect of the same operations on the set |
| `SignalSets.ValidSignals` | lib/posix/options/signals/signal.c:30-41 | the usable signals are 1 to 31 and the real-time range, without the two reserved ones |
| `SignalSets.AddAskDeleteAsk` | lib/posix/options/signals/signal.c:76-131 | a signal added is found, deleted is gone, and no other changes |
| `SignalSets.EmptyAskFillAsk` | lib/posix/options/signals/signal.c:50-131 | nothing is in an emptied set, everything usable outside the reserved range in a filled one |
| `SignalMap.SigWordsRemap` | lib/posix/options/shared/z_sig_set.c:158-197 | the target set is exactly the positive images, that fit, of the source members, for any map and any number of words |
| `SignalMap.RemapWord` | lib/posix/options/shared/z_sig_set.c:164-195 | one word's loop meets every member of that word once |
| `SignalMap.SetSignal` | lib/posix/options/shared/z_sig_set.c:181-192 | adds the one signal |
| `SignalMap.IndexDecidesFit` | lib/posix/options/shared/z_sig_set.c:185 | testing the word index is testing whether the signal fits |
| `SignalMap.RealTimeKeepsItsPlace` | lib/posix/options/shared/z_sig_set.c:147-149 | the k-th real-time signal of either side is the k-th of the other |
| `SignalMap.StandardGoesByTable` | lib/posix/options/shared/z_sig_set.c:155 | a standard signal goes to its table entry |
| `SignalMap.OthersGoNowhere` | lib/posix/options/shared/z_sig_set.c:151-153 | any other number has no counterpart |
| `SignalMap.BackAndForth` | lib/posix/options/shared/z_sig_set.c:145-208 | with mutually inverse tables and a wide enough kernel range a signal with a counterpart comes back |
| `SignalMap.RoundTripExactly` | lib/posix/options/shared/z_sig_set.c:210-224 | converting every set there and back returns its signals with a counterpart if and only if each such signal comes back by itself |
| `SignalMap.RoundTrip` | lib/posix/options/shared/z_sig_set.c:210-224 | the two slow conversions in a row are the two renumberings in a row; with mutually inverse tables and a wide enough kernel range they return of the source exactly the real-time signals whose kernel number fits and the standard signals with a fitting table entry |
| `SignalMap.FastPathAgrees` | lib/posix/options/shared/posix_internal.h:268-288 | where both numberings are the same the identity conversion agrees with the slow one exactly on sets without unmapped signals, both ways |
| `SignalMap.MinimalLibcQualifies` | lib/posix/options/shared/z_sig_set.c:66-143 | tables that are the identity but for the gaps 16, 28 and 30 meet all premises, and 16 is dropped |
| `EnvMap.ViewReplace` | lib/posix/options/shared/env_common.c:143-150 | rewriting an entry updates the map at that name |
| `EnvMap.ViewAppend` | lib/posix/options/shared/env_common.c:151-172 | appending an entry with a new name adds it to the map |
| `EnvMap.ViewRemove` | lib/posix/options/shared/env_common.c:228-233 | closing the gap removes the name from the map |
| `EnvTable.ParseWritten` | lib/posix/options/shared/env_common.c:189-191 | name=value is read back as name and value even when the value holds = |
| `EnvTable.StartsWithIsName` | lib/posix/options/shared/env_common.c:60 | the prefix test with the = behind it is equality of names |
| `EnvTable.GoodWritten` | lib/posix/options/shared/env_common.c:189-191 | the three writes leave exactly the new entry, terminated, in a buffer that may be longer |
| `EnvTable.Environment.constructor` | lib/posix/options/shared/env_common.c:31-43 | an empty table is the empty map |
| `EnvTable.Environment.EnvironSize` | lib/posix/options/shared/env_common.c:31-43 | counts the entries before the NULL without leaving the array |
| `EnvTable.Environment.FindEnv` | lib/posix/options/shared/env_common.c:45-66 | refuses bad names, finds the entry of a name in the map, and reports exactly the names not in it as missing |
| `EnvTable.Environment.GetEnv` | lib/posix/options/shared/env_common.c:68-85 | the map's value at the name, or nothing |
| `EnvTable.Environment.Rewrite` | lib/posix/options/shared/env_common.c:174-191 | in place where the new value is no longer, else in a new buffer; on failure the map stays |
| `EnvTable.Environment.Append` | lib/posix/options/shared/env_common.c:151-191 | adds the name, or leaves the map as it was when either allocation fails |
| `EnvTable.Environment.SetEnv` | lib/posix/options/shared/env_common.c:120-203 | exactly when it fails, and the map update it amounts to; names stay unique and the array NULL-terminated |
| `EnvTable.Environment.ShiftDown` | lib/posix/options/shared/env_common.c:227-233 | removes one name, and only it, and keeps the table terminated |
| `EnvTable.Environment.MovePointers` | lib/posix/options/shared/env_common.c:227-233 | every later pointer one place forward, all accesses in bounds |
| `EnvTable.Environment.UnsetEnv` | lib/posix/options/shared/env_common.c:205-264 | removes the name from the map, whether or not the array can shrink |
| `EnvTable.Environment.Apply` | lib/posix/options/shared/env_common.c:120-264 | one call of either kind: its result and its effect on the map |
| `EnvTable.Environment.ApplyAll` | lib/posix/options/shared/env_common.c:120-264 | any sequence of calls, whatever the allocator answers, leaves the well-formed table of the map that the same updates build, with each result as the map at that point has it |
| `EnvTable.EffectIsLocal` | lib/posix/options/shared/env_common.c:120-264 | a failing call changes nothing, and no call changes another name |
| `EnvTable.Environment.SetGetUnsetGet` | lib/posix/options/shared/env_common.c:68-264 | a name set is found with its value, unset is gone, and another name keeps its value throughout |
| `NamedSem.OneNameStep` | lib/posix/options/semaphores/semaphore.c:207-344 | no operation gives a semaphore two names |
| `NamedSem.RecreatedIsDifferent` | lib/posix/options/semaphores/semaphore.c:207-344 | while a handle stays open, over any run, no other name comes to mean that semaphore, so a name unlinked and created again is a different one |
| `NamedSem.FreedExactlyWhenUnneeded` | lib/posix/options/semaphores/semaphore.c:67-80 | an object is in memory exactly while it has a name or an open handle |
| `NamedSem.Semaphores.NsemFind` | lib/posix/options/semaphores/semaphore.c:42-53 | finds the semaphore a name is bound to, or none |
| `NamedSem.Semaphores.NsemUnref` | lib/posix/options/semaphores/semaphore.c:67-80 | drops a reference, keeps count equal to handles plus name, frees exactly at 0; both assertions of the source hold |
| `NamedSem.Semaphores.SemOpen` | lib/posix/options/semaphores/semaphore.c:207-295 | each error and its condition; on success one handle more, the name bound to the semaphore returned, nothing else changed |
| `NamedSem.Semaphores.SemUnlink` | lib/posix/options/semaphores/semaphore.c:297-329 | each error and its condition; the name, and no other, is no longer bound, and open handles stay |
| `NamedSem.Semaphores.SemClose` | lib/posix/options/semaphores/semaphore.c:331-344 | removes one handle and no binding |
| `NamedSem.Semaphores.UnlinkThenOpen` | lib/posix/options/semaphores/semaphore.c:207-329 | after an unlink the name is not found without O_CREAT and is a new semaphore with it, while the old one stays for its handles and other names keep theirs |
| `NamedSem.Semaphores.OpenTwice` | lib/posix/options/semaphores/semaphore.c:207-295 | two opens of a name give the same semaphore and two handles |
| `NamedSem.Semaphores.CloseAll` | lib/posix/options/semaphores/semaphore.c:331-344 | as many closes as open handles free a semaphore exactly when it has no name |
| `NamedSem.Semaphores.WholeLife` | lib/posix/options/semaphores/semaphore.c:207-344 | created, opened again, unlinked and closed twice, it is gone and everything is as before |
| `Decimal.OnlyOneSpelling` | lib/posix/c_lib_ext/strfmon.c:337-395 | a digit string is determined by its length and value |
| `Decimal.DivisionSplits` | lib/posix/c_lib_ext/strfmon.c:239-241 | dividing by a power of ten splits the digits |
| `Decimal.FitsIn64Bits` | lib/posix/c_lib_ext/strfmon.c:201-206 | powers of ten up to the 19th fit 64 bits |
| `Strfmon.DigitsSayTheValue` | lib/posix/c_lib_ext/strfmon.c:337-395 | whole part and fraction read together are the value, with exactly the fraction digits asked for and no leading zero |
| `Strfmon.TextReadsBackExactly` | lib/posix/c_lib_ext/strfmon.c:239-412 | the digits of the whole output, fills and padding included, read back as the value if and only if no fill is a digit that counts: none is written, or it is no digit, or zeros in front |
| `Strfmon.TextLength` | lib/posix/c_lib_ext/strfmon.c:293-307 | the output is as long as the larger of field width and number |
| `StrfmonText.Anatomy` | lib/posix/c_lib_ext/strfmon.c:309-412 | every output is fill, opening sign, numeric fill, whole digits, point, fraction digits, closing sign and fill, in that order, with the digits and widths asked for |
| `StrfmonText.PointSeparates` | lib/posix/c_lib_ext/strfmon.c:370-395 | with legible fills, the digits before the point read as the whole part, and exactly the fraction digits asked for follow it and read as the rest |
| `StrfmonText.OnePoint` | lib/posix/c_lib_ext/strfmon.c:370-372 | there is one point, or none when no fraction digits are asked for |
| `StrfmonText.SignsOccur` | lib/posix/c_lib_ext/strfmon.c:316-400 | minus, plus and parentheses occur once each exactly for the amounts and flags that call for them |
| `Strfmon.Out.constructor` | lib/posix/c_lib_ext/strfmon.c:175-179 | an output that has sent nothing and may write the given room |
| `Strfmon.Out.PutcIfSpace` | lib/posix/c_lib_ext/strfmon.c:163-172 | the buffer holds the longest prefix of the text sent that fits, and nothing outside the room is touched |
| `Strfmon.Out.PutMany` | lib/posix/c_lib_ext/strfmon.c:309-314 | sends the fill as often as asked, never for a negative count |
| `Strfmon.Out.PutWhole` | lib/posix/c_lib_ext/strfmon.c:337-368 | the divisor loop sends the number without leading zeros, a zero as one digit |
| `Strfmon.Out.PutFraction` | lib/posix/c_lib_ext/strfmon.c:370-395 | the remainder loop sends exactly the fraction digits, leading zeros kept |
| `Strfmon.CountDigits` | lib/posix/c_lib_ext/strfmon.c:243-258 | the least number of digits |
| `Strfmon.Layout` | lib/posix/c_lib_ext/strfmon.c:260-307 | digit places and padding from precisions, sign and width |
| `Strfmon.PutAmount` | lib/posix/c_lib_ext/strfmon.c:316-400 | sends the number itself |
| `Strfmon.StrfmonOne` | lib/posix/c_lib_ext/strfmon.c:239-412 | sends the text of the amount, so the buffer gets it or the prefix of it that fits |
| `Inet.InetAddr` | lib/posix/options/networking/inet_addr.c:12-65 | for every string, the bytes its dotted text stands for, or all ones where the text is not acceptable |
| `Inet.CheckShape` | lib/posix/options/networking/inet_addr.c:23-49 | accepts exactly three dots, one to three digits before each, at most three after the last, four digits in all, ended by the string or white space |
| `Inet.Evaluate` | lib/posix/options/networking/inet_addr.c:51-64 | each part read in decimal, shifted in by a byte and or-ed |
| `Inet.QuadGivesItsBytesExactly` | lib/posix/options/networking/inet_addr.c:12-65 | every dotted quad is accepted, and its bytes are its parts if and only if no part is above 255 |
| `Inet.OversizedPartSpills` | lib/posix/options/networking/inet_addr.c:57-61 | the bytes of every dotted quad, whatever the size of its parts: the low byte of each part or-ed with the high bits of the part behind it |
| `Inet.SpillIsNoCarry` | lib/posix/options/networking/inet_addr.c:57-61 | 0.0.1.256 is read as 0.0.1.0 |
| `Inet.AcceptedTexts` | lib/posix/options/networking/inet_addr.c:23-49 | gives the parts of an accepted text: a dotted quad, or three parts of four digits or more in all and a dot |
| `Inet.AcceptedExactly` | lib/posix/options/networking/inet_addr.c:23-49 | a text is accepted if and only if it is a dotted quad, or three parts of at least four digits in all with a dot after them |
| `Inet.DottedAcceptedExactly` | lib/posix/options/networking/inet_addr.c:47-49 | a dotted text whose last part may be missing is accepted if and only if it has four digits or more |
| `Inet.ThreeAndDotBytes` | lib/posix/options/networking/inet_addr.c:51-64 | three parts and a dot are read one byte too low |
| `Inet.FieldOfQuad` | lib/posix/options/networking/inet_addr.c:43-44 | a quad followed by white space is read without what follows |
| `Inet.InetNtoa` | lib/posix/options/networking/inet_ntoa.c:12-20 | four shortest decimals with dots, never cut by the buffer |
| `Inet.AddrUndoesNtoa` | lib/posix/options/networking/inet_addr.c:12-65 | inet_addr of the printed form of any four bytes is those bytes |
| `Inet.PrintAndRead` | lib/posix/options/networking/inet_ntoa.c:12-20 | printing any four bytes and reading the text back gives those bytes, through both functions |
| `Strtok.RunsAreTheMaximalOnes` | lib/posix/c_lang_support_r/strtok_r.c:10-40 | the tokens are the separator-free stretches that cannot be extended, all of them and nothing else |
| `Strtok.RunsInOrder` | lib/posix/c_lang_support_r/strtok_r.c:10-40 | tokens come in order and never touch |
| `Strtok.StrtokR` | lib/posix/c_lang_support_r/strtok_r.c:10-40 | one call: the next token, where to go on, and one byte changed, or none at all |
| `Strtok.AllTokens` | lib/posix/c_lang_support_r/strtok_r.c:10-40 | calls until NULL give the tokens of the original text and change only the byte after each |
| `Getopt.MaskIndex` | lib/posix/c_lib_ext/zephyr_getopt.c:52-67 | letters and digits get a bit below 62, everything else none |
| `Getopt.MaskIndexInjective` | lib/posix/c_lib_ext/zephyr_getopt.c:52-67 | no two share a bit |
| `Getopt.ParseOptstring` | lib/posix/c_lib_ext/zephyr_getopt.c:69-110 | a letter's bit is set exactly when it is listed, its argument bit exactly when a colon follows its first listing, and colon exactly when the string starts with one |
| `Getopt.Scanner.Getopt` | lib/posix/c_lib_ext/zephyr_getopt.c:261-426 | one call does what the meaning of the option string says, in result and in all state |
| `Getopt.Scanner.Letter` | lib/posix/c_lib_ext/zephyr_getopt.c:357-414 | the letter looked at decides the result, argument and next position; the loop never takes a second turn |
| `Getopt.CallsAdvance` | lib/posix/c_lib_ext/zephyr_getopt.c:261-426 | where every option can be got past, a call that reports one strictly advances the position |
| `Getopt.CallsAdvanceExactly` | lib/posix/c_lib_ext/zephyr_getopt.c:261-426 | from any state, a call that reports an option advances if and only if the option takes an argument, ends its argument, or both numbers of the next place fit 16 bits |
| `Getopt.AllCallsAdvanceExactly` | lib/posix/c_lib_ext/zephyr_getopt.c:261-426 | every call from every state advances if and only if that holds of every place a call can look at |
| `Getopt.SmallIsPassable` | lib/posix/c_lib_ext/zephyr_getopt.c:28-34 | it does when argument numbers and character positions fit 16 bits |
| `Getopt.ScanAll` | lib/posix/c_lib_ext/zephyr_getopt.c:261-426 | calling until no option is reported ends within the number of characters left |
| `Getopt.NextIsProperExactly` | lib/posix/c_lib_ext/zephyr_getopt.c:350-413 | the next call looks at the next letter of the cluster exactly when both numbers fit 16 bits; a later argument is begun at its first letter exactly under the condition stated |
| `Getopt.StuckBeyond16Bits` | lib/posix/c_lib_ext/zephyr_getopt.c:288-293 | at an argument number of 65536 or more the first letter of a cluster is reported for ever |
| `Getopt.LongClusterNeverEnds` | lib/posix/c_lib_ext/zephyr_getopt.c:357-413 | in a cluster of more than 65536 letters without arguments every call, without end, reports a letter of it |
| `Getopt.SkippedLetter` | lib/posix/c_lib_ext/zephyr_getopt.c:372-391 | from a reset, -vbfile and -xyz report v, b and y: the letter x is passed over |
| `Getopt.JoinedArgument` | lib/posix/c_lib_ext/zephyr_getopt.c:376-383 | -cv reports c with argument v |
| `Getopt.SeparateArgument` | lib/posix/c_lib_ext/zephyr_getopt.c:385-393 | -c v reports c with argument v and moves past both |
| `Getopt.MissingArgument` | lib/posix/c_lib_ext/zephyr_getopt.c:395-399 | with nothing behind it, the result is : if the option string starts with one and ? otherwise |
| `Getopt.UnknownOption` | lib/posix/c_lib_ext/zephyr_getopt.c:361-369 | an option not listed gives ? and is left in optopt |
| `Getopt.ClusterOfTwo` | lib/posix/c_lib_ext/zephyr_getopt.c:402-413 | -cd reports c and then d, without arguments |
| `Getopt.OptionsEnd` | lib/posix/c_lib_ext/zephyr_getopt.c:302-324 | options end before the first argument that is none, and behind -- |

## Left out

- Fnmatch.FnmatchTop: excludes characters above 127 and patterns that end in an unpaired backslash without FNM_NOESCAPE, because the source then depends on the sign of `char`, or reads behind the pattern.
- Where documentation and code of `fnmatch` differ (a bracket that meets a slash under FNM_PATHNAME; class names longer than the key) the model follows the code.
- GlobLaws.ReadWritten: a pattern is written without FNM_NOESCAPE; the literal `[` of an unterminated bracket and a bracket that meets a slash have no spelling of their own.
- Time-outs as real time: a timed wait is a step that succeeds or gives up. A failed wait for `wr_sem` changes nothing and is not a step.
- RwLock.RunsAreExclusive: assumes that a reader's two stretches run undisturbed and that at most the limit of read locks is held, which RwLock.ExclusiveExactly shows to be needed; only holders unlock.
- RwLock.InvStep: under the premises of RwLock.RunsAreExclusive.
- RwLock.ReleasedIsInitial: under the premises of RwLock.RunsAreExclusive.
- RwLock.ReadersOnlyShrink: under the premises of RwLock.RunsAreExclusive.
- RwLock.TimedOutAttemptIsInvisible: under the premises of RwLock.RunsAreExclusive.
- Barrier.SleeperIsOwedASignal: assumes that no thread re-enters before the round has drained, which Barrier.ThreadsAreLostExactly shows to be needed; locking the mutex and counting oneself is one step, and the condition variable wakes nobody without a signal.
- Barrier.RoundStep: under the premise of Barrier.SleeperIsOwedASignal.
- Barrier.DrainStep: under the premise of Barrier.SleeperIsOwedASignal.
- Barrier.EveryoneReturns: under the premise of Barrier.SleeperIsOwedASignal.
- RwLockCalls.CanAlwaysBeReleased: from states in which a reader on its way in has room within the limit.
- NamedSem.Semaphores.SemOpen: the semaphore's own count, the mutex around the list and the overflow of ref_count at INT_MAX are not modelled; whether allocations succeed is a parameter.
- NamedSem.Semaphores.SemClose: each handle is closed at most once.
- EnvTable.Environment.SetEnv: the value passed in does not alias the table, and whether allocations succeed is a parameter; the `allocated` counter, `z_getenv_r`, locking and errno are not modelled.
- EnvTable.Environment.GetEnv: returns the value and not a pointer into the table.
- SignalMap.MinimalLibcQualifies: takes the tables to be the identity but for the gaps; the numbers in the kernel's and the library's headers are not part of this model.
- Strfmon.StrfmonOne: starts from the rounded magnitude and its sign; floating-point rounding and the parser of format strings are not modelled, and more than 19 fraction digits overflow 64 bits in the source.
- Inet.InetAddr: INET_ADDRSTRLEN is taken to be 16; its defining header is not part of this model.
- Lengths and counters kept in `int` or `size_t` outside `gmtime_r`, `strfmon`, `inet_addr` and `zephyr_getopt` are unbounded.
- Getopt.ScanAll: assumes that every option can be got past; on other command lines the calls need not end, as Getopt.LongClusterNeverEnds shows.
- Getopt.CallsAdvance: under the same premise, which Getopt.AllCallsAdvanceExactly shows to be exact.
- Long options of `zephyr_getopt`, and the meaning of a whole command line beyond progress and the exact successor of each step.
- pthread creation, cancellation, mutexes, condition variables, keys and clocks: thin wrappers over kernel calls that are not in the repository.
- Networking, device, file descriptor and file system wrappers, message queues, shared memory and timers: they forward to code that is not in the repository.
- Headers, sysconf and confstr tables, priority conversion, fcntl constants, attribute getters and setters: finite or single-branch facts.

# Verification of iocore and its vendored test framework

A Dafny model of the algorithms and protocols of this repository that are easiest to get wrong, with
proofs of what they promise. `dafny verify dfyconfig.toml` checks all of it.

**First-party protocols.**
`InList` is the intrusive list as a class over linked nodes, `InListRuns` its runs. `InQueue` steps any
number of pushing and popping threads through the blocking queue: spinning, blocking and timed pops,
spurious wakeups, timeouts, and signals sent after unlocking. `InQueueOrder` says what this does to the
elements, `InQueueCalls` what the calls return. `SpinMutex` steps threads through the spin lock.
`PerfCounter` is one call of the counter's update, `PerfCounterRuns` any interleaving of many.
`ThreadContext` is the release of a thread's pool of buffers, `ThreadLifecycle` its interleaving with
cancellation, collection and destruction.

**The test framework.**
`EditScript`, `EditCost`, `EditOptimality` and `Interning` are the dynamic-programming edit script.
`UnifiedDiff` builds the hunks and prints them, `UnifiedText` reads the characters back, `UnifiedPatch`
applies the hunks, and `UnifiedRoundTrip` goes from two files to the text and back. `SimpleRegex` is the
grammar and the meaning of the simple regular expressions, `RegexMeaning` says what each atom and each
repetition comes to, and `RegexValidator`, `RegexMatcher` and `RegexClass` are the code that handles them.
`TestFilter` is the filter of test names, `TestNames` the meaning of the two built-in filters. `Shuffle` and
`TestOrder` are the order in which tests run, `Sharding` the choice of those that do. `XmlReader` reads XML
back that `XmlWriter` and `XmlCData` write. `Utf8` is the encoding with a strict decoder, `WideStrings` the
conversion of wide strings.
`Options`, `Bits` and `Sequences` hold what several modules share.

Protocols are state machines: a step is one atomic operation or, in the queue, what happens up to the next
lock, unlock, wait or signal. A run is a sequence of states from an initial one, and the results hold in
every state of every run. Edit costs are scaled by 100000 and exact.

## What does not hold

Where the code does not do what its documentation says, or what one would expect, the model follows the
code, and the lemma or contract named here says exactly when all is well.

- The edit script is documented as optimal (gtest.h:7682-7685), but a tie of adding and removing against
  replacing falls into the replace branch. `EditOptimality.ScriptIsOptimalIff` has the exact condition, the
  agreement with the recurrence of Wagner and Fischer. Of ties alone only this can be said: none in the table
  gives optimal edits (`EditOptimality.NoTiesGiveOptimal`), optimal edits have none on their path
  (`EditOptimality.OptimalHasNoTieOnTrace`), and neither of these can be turned round
  (`EditOptimality.HarmlessTie`, `EditOptimality.HarmfulTieOffTrace`). `EditCost.NoConstantFactor` shows how
  far from optimal the edits can be.
- A unified diff with no context prints nothing, a line with a NUL is printed up to it, and a line break inside
  a line is read as its end. `UnifiedRoundTrip.DiffRoundTrip` says exactly when the text gives right back, with
  `UnifiedRoundTrip.LineBreakIsShown` for an instance.
- Full matching looks at the last character of the regex to see whether it is anchored, and takes an
  escaped '$' for an anchor. `RegexClass.FullMatchIsWholeMatch`, with `RegexClass.EscapedDollarIsRegex` for an
  instance.
- A timed pop that times out does not look at the queue again, although POSIX lets a timed-out wait consume
  a signal sent at the same time; another waiter can then sleep beside an element.
  `InQueue.NoLostWakeupIffThreeNeverMeet`.
- The spin lock does not initialize its owner field, and its assertions can fail. Mutual exclusion does not
  depend on it. `SpinMutex.NeverFailsIffStartsUnowned`.
- A cancelled thread that is started again before it is destroyed loses its pool
  (`ThreadLifecycle.NothingLeaksIffDestroyedFirst`), and calls of Destroy that overlap on one thread, or
  overlap the running thread, free it twice (`ThreadLifecycle.FaultIffOverlap`). `ThreadLifecycle.PoolIsLost`,
  `ThreadLifecycle.DestroyedTwice` and `ThreadLifecycle.DestroyedWhileRunning` are runs in which this happens.
- The constant lookup of a test case finds the wrong one while test cases are shuffled.
  `TestOrder.UnitTestImpl.LookupsAgreeIffUnshuffled`; `TestOrder.SomeSeedShuffles` says that they then are.
- The assertions of the list's push do not notice the sole element of the list. `InList.List.Push`.
- Values from 0x110000 to 0x1fffff are encoded in four bytes, although they are documented to be replaced by
  a message (gtest-all.cc:3239-3241). `WideStrings.WrittenAsDocumented` and
  `WideStrings.ConvertedAsDocumented`, with `WideStrings.BeyondUnicodeIsEncoded` for an instance.
- Where char is signed, bytes from 0x80 on count as invalid in XML, and UTF-8 text is dropped.
  `XmlWriter.RemovedAsDocumented` and `XmlWriter.AttributeKeepsAllIff`, with
  `XmlWriter.AccentedLetterIsDropped` for an instance.

## Model

| member | source | states |
|---|---|---|
| `EditScript.ScriptIsCorrect` | third-party/gtest-1.7.0/gtest/gtest-all.cc:2494-2503 | for all inputs, the script replayed on left gives right, a match uses equal and a replace unequal elements, no index underflows, and the script weighs what the table says |
| `EditScript.TraceReaches` | third-party/gtest-1.7.0/gtest/gtest-all.cc:2496-2501 | the path traced back from any cell leads there from the origin and weighs the cell's cost |
| `EditScript.CalculateOptimalEdits` | third-party/gtest-1.7.0/gtest/gtest-all.cc:2449-2504 | the two tables and the traceback loop find exactly the script of the recursive specification, and the loop ends |
| `EditScript.FillTable` | third-party/gtest-1.7.0/gtest/gtest-all.cc:2457-2492 | every cell holds the cost and the move of the recursive specification, with the source's tie-breaking |
| `EditCost.TieIsReplaced` | third-party/gtest-1.7.0/gtest/gtest-all.cc:2479-2490 | on unequal elements the table comes from where it is strictly cheapest of the three, and replaces if there is no such place |
| `EditCost.LighterIsShorter` | third-party/gtest-1.7.0/gtest/gtest-all.cc:2486-2488 | the lighter of two scripts has fewer changes, or as many and fewer replaces, as long as these are fewer than 100000 |
| `EditCost.DistanceBounds` | third-party/gtest-1.7.0/gtest/gtest-all.cc:2457-2490 | the cost is at most the replace weight times the longer length, at least the difference of the lengths, and zero exactly for equal inputs |
| `EditCost.TraceMirror` | third-party/gtest-1.7.0/gtest/gtest-all.cc:2479-2501 | swapping the inputs swaps adds and removes in the script, edit by edit |
| `EditCost.RemovesOnlyIffSubsequence` | third-party/gtest-1.7.0/gtest/gtest-all.cc:2457-2503 | the script only matches and removes exactly when right is a subsequence of left, and then costs the difference of the lengths |
| `EditCost.AddsOnlyIffSubsequence` | third-party/gtest-1.7.0/gtest/gtest-all.cc:2457-2503 | the dual for adds |
| `EditOptimality.BestIsLeast` | third-party/gtest-1.7.0/gtest/gtest.h:7685-7686 | no script is lighter than the distance of the recurrence of Wagner and Fischer |
| `EditOptimality.BestIsReached` | third-party/gtest-1.7.0/gtest/gtest.h:7685-7686 | and some script is that light |
| `EditOptimality.ScriptIsOptimalIff` | third-party/gtest-1.7.0/gtest/gtest.h:7682-7685 | the returned edits are optimal, as documented, exactly when the table ends with that distance |
| `EditOptimality.CellIsLeastIffNoTie` | third-party/gtest-1.7.0/gtest/gtest-all.cc:2479-2490 | a cell costs the least of its three ways exactly when one of them starts from a strictly cheapest cell |
| `EditCost.MinimalIffNoTies` | third-party/gtest-1.7.0/gtest/gtest-all.cc:2479-2490 | every cell of the table is minimal exactly when no cell takes the replace branch on a tie |
| `EditOptimality.NoTiesGiveOptimal` | third-party/gtest-1.7.0/gtest/gtest-all.cc:2479-2490 | a table without ties gives optimal edits |
| `EditOptimality.OptimalHasNoTieOnTrace` | third-party/gtest-1.7.0/gtest/gtest-all.cc:2494-2501 | optimal edits are traced back along cells without ties |
| `EditOptimality.HarmlessTie` | third-party/gtest-1.7.0/gtest/gtest-all.cc:2485-2490 | two inputs with a tie off the traced path and optimal edits |
| `EditOptimality.HarmfulTieOffTrace` | third-party/gtest-1.7.0/gtest/gtest-all.cc:2485-2490 | two inputs with a tie off the traced path only, and edits that are not optimal |
| `EditCost.AlternatingIsFarFromMinimal` | third-party/gtest-1.7.0/gtest/gtest-all.cc:2479-2490 | on two alternating sequences of length n the script replaces all n elements where two edits suffice |
| `EditCost.NoConstantFactor` | third-party/gtest-1.7.0/gtest/gtest.h:7682-7685 | so no constant bounds how far from optimal the result can be |
| `Interning.InternalStrings.GetId` | third-party/gtest-1.7.0/gtest/gtest-all.cc:2511-2516 | a string keeps its id, a new one gets an id no other string has |
| `Interning.TraceSeesOnlyPattern` | third-party/gtest-1.7.0/gtest/gtest-all.cc:2525-2539 | the script depends only on which elements of the two inputs are equal |
| `Interning.CalculateOptimalEditsOfLines` | third-party/gtest-1.7.0/gtest/gtest-all.cc:2525-2539 | the overload on strings finds the script of the strings themselves |
| `UnifiedDiff.Hunk.PushLine` | third-party/gtest-1.7.0/gtest/gtest-all.cc:2556-2572 | the three lists and the three counts are what the lines pushed so far determine |
| `UnifiedText.CStrIsUpToNul` | third-party/gtest-1.7.0/gtest/gtest-all.cc:2580 | of a line, all is printed up to its first NUL, and all of it without one |
| `UnifiedDiff.Hunk.PrintTo` | third-party/gtest-1.7.0/gtest/gtest-all.cc:2574-2608 | the characters appended for a hunk: a header with decimal starts and lengths, whose sides are left out when they have no change, and the marked lines, removes before adds between common lines |
| `UnifiedDiff.FillHunk` | third-party/gtest-1.7.0/gtest/gtest-all.cc:2646-2674 | a hunk takes edits until enough matches follow and the next change is not close |
| `UnifiedDiff.CreateUnifiedDiff` | third-party/gtest-1.7.0/gtest/gtest-all.cc:2624-2684 | the string returned is the text of hunks that are ordered and disjoint, cover every change, begin and end context edits from their outermost changes, and join changes exactly when they are at most twice the context apart; with no context there are none |
| `UnifiedPatch.DiffIsUnique` | third-party/gtest-1.7.0/gtest/gtest-all.cc:2617-2623 | this leaves nothing open: one edit script and one context have one text |
| `UnifiedText.HeaderIsRead` | third-party/gtest-1.7.0/gtest/gtest-all.cc:2592-2608 | a header is read back as the sides it was written for, whichever of them are left out |
| `UnifiedText.DiffIsReadIff` | third-party/gtest-1.7.0/gtest/gtest-all.cc:2617-2620 | a strict reader of characters gets the hunks back exactly when no line has a NUL or a line break inside |
| `UnifiedText.DiffIsMisread` | third-party/gtest-1.7.0/gtest/gtest-all.cc:2579-2581 | otherwise it reads nothing, or another line in the place of the first such line |
| `UnifiedPatch.HunkSays` | third-party/gtest-1.7.0/gtest/gtest-all.cc:2592-2608 | the old text of a hunk is a slice of left and the new text a slice of right, at the starts and with the lengths of the header |
| `UnifiedPatch.GroupKeepsSide` | third-party/gtest-1.7.0/gtest/gtest-all.cc:2543-2546 | moving removes before adds changes neither the old nor the new text |
| `UnifiedPatch.GroupingPutsRemovesFirst` | third-party/gtest-1.7.0/gtest/gtest-all.cc:2543-2546 | and between two common lines all removes are printed before all adds |
| `UnifiedPatch.SidesAreShownIfChanged` | third-party/gtest-1.7.0/gtest/gtest-all.cc:2592-2608 | the header shows a side exactly when the hunk removes, or adds, a line |
| `UnifiedPatch.PatchHunks` | third-party/gtest-1.7.0/gtest/gtest-all.cc:2617-2623 | a strict reader of the hunks turns left into right |
| `UnifiedPatch.HunksShowWhatIsNear` | third-party/gtest-1.7.0/gtest/gtest-all.cc:2621-2623 | the hunks show exactly the edits within the context of some change |
| `UnifiedRoundTrip.HunksArePlainIff` | third-party/gtest-1.7.0/gtest/gtest-all.cc:2654-2669 | no printed line has a NUL or a line break inside exactly when no line within the context of a change has one |
| `UnifiedRoundTrip.PatchTextIff` | third-party/gtest-1.7.0/gtest/gtest-all.cc:2617-2620 | what is patched from the characters of a diff is right exactly when no printed line has a NUL or a line break inside |
| `UnifiedRoundTrip.DiffRoundTrip` | third-party/gtest-1.7.0/gtest/gtest-all.cc:2617-2684 | from the string alone the strict reader turns the lines of left into those of right, exactly when there is context and no line within the context of a change has a NUL or a line break inside, or without context when there is nothing to change |
| `UnifiedRoundTrip.LineBreakIsShown` | third-party/gtest-1.7.0/gtest/gtest-all.cc:2579-2581 | one line with a NUL or a line break inside, against no lines, is such an input |
| `RegexMeaning.PlainAtom` | third-party/gtest-1.7.0/gtest/gtest-all.cc:9108 | '.' matches every character but the line feed, any other plain atom only itself |
| `RegexMeaning.ClassAtom` | third-party/gtest-1.7.0/gtest/gtest-all.cc:9072-9102 | \\d, \\s and \\w match the digits, the white space and the word characters of ASCII |
| `RegexMeaning.ComplementAtom` | third-party/gtest-1.7.0/gtest/gtest-all.cc:9094-9103 | \\D, \\S and \\W match exactly the others |
| `RegexMeaning.ControlAtom` | third-party/gtest-1.7.0/gtest/gtest-all.cc:9095-9101 | the escapes for control characters match these |
| `RegexMeaning.Punctuation` | third-party/gtest-1.7.0/gtest/gtest-all.cc:9073-9075 | the punctuation characters are the visible ones of ASCII but letters and digits |
| `RegexMeaning.EscapedPunctuation` | third-party/gtest-1.7.0/gtest/gtest-all.cc:9105 | an escaped one matches itself |
| `RegexMeaning.OnceIs` | third-party/gtest-1.7.0/gtest/gtest-all.cc:9225-9236 | an atom without a repetition takes one character, and the rest matches what follows |
| `RegexMeaning.OptionalIs` | third-party/gtest-1.7.0/gtest/gtest-all.cc:9182-9203 | with '?' it takes one or none |
| `RegexMeaning.PlusIs` | third-party/gtest-1.7.0/gtest/gtest-all.cc:9182-9203 | with '+' it takes one, and then as with '*' |
| `RegexMeaning.StarIs` | third-party/gtest-1.7.0/gtest/gtest-all.cc:9182-9203 | with '*' it takes none, or as with '+' |
| `RegexMeaning.SpelledOut` | third-party/gtest-1.7.0/gtest/gtest-all.cc:9209-9258 | one text with an anchor at each end, each repetition, a wildcard and a class spells the expression it should |
| `SimpleRegex.RegexIsUnique` | third-party/gtest-1.7.0/gtest/gtest-all.cc:9117-9173 | a text spells at most one expression, so the meaning of a regex is well defined |
| `RegexValidator.ValidIffRegex` | third-party/gtest-1.7.0/gtest/gtest-all.cc:9119-9173 | the validator's conditions hold exactly for the texts of the grammar |
| `RegexValidator.ValidateRegex` | third-party/gtest-1.7.0/gtest/gtest-all.cc:9119-9173 | the loop accepts exactly the texts of the grammar, and rejects null |
| `RegexMatcher.MatchRepetitionAndRegexAtHead` | third-party/gtest-1.7.0/gtest/gtest-all.cc:9175-9204 | true exactly when a repetition of the atom, followed by the rest, matches a prefix; no read leaves the strings; the recursion ends |
| `RegexMatcher.MatchRegexAtHead` | third-party/gtest-1.7.0/gtest/gtest-all.cc:9206-9235 | true exactly when some prefix of the string is in the language of the regex |
| `RegexMatcher.MatchRegexAnywhere` | third-party/gtest-1.7.0/gtest/gtest-all.cc:9237-9258 | true exactly when some substring is in the language, the empty suffix included, and with '^' some prefix |
| `RegexClass.FullPatternIsValid` | third-party/gtest-1.7.0/gtest/gtest-all.cc:9291-9309 | the pattern built for full matches is itself valid: the same items, anchored at both ends unless they end in an escaped '$' |
| `RegexClass.FullMeaning` | third-party/gtest-1.7.0/gtest/gtest-all.cc:9267-9270 | what a match of the built pattern means: the whole string, or only a prefix after an escaped '$' |
| `RegexClass.EscapedDollarAcceptsMore` | third-party/gtest-1.7.0/gtest/gtest-all.cc:9306-9307 | for every regex that ends in an escaped '$' some string is accepted that does not match as a whole |
| `RegexClass.EscapedDollarIsRegex` | third-party/gtest-1.7.0/gtest/gtest-all.cc:9306-9307 | a backslash and a '$' are such a regex |
| `RegexClass.FullMatchIsWholeMatch` | third-party/gtest-1.7.0/gtest/gtest-all.cc:9267-9270 | full matching asks for the whole string on all strings exactly when the regex does not end in an escaped '$' |
| `RegexClass.RE.Init` | third-party/gtest-1.7.0/gtest/gtest-all.cc:9278-9310 | is_valid tells whether the text is in the grammar, and the full pattern is built only then |
| `RegexClass.RE.FullMatch` | third-party/gtest-1.7.0/gtest/gtest-all.cc:9267-9270 | the matcher's answer on the full pattern, for valid and invalid regexes and null strings |
| `RegexClass.RE.PartialMatch` | third-party/gtest-1.7.0/gtest/gtest-all.cc:9272-9276 | true exactly when the regex is valid and some substring matches |
| `TestFilter.MatcherIsRight` | third-party/gtest-1.7.0/gtest/gtest-all.cc:1904-1919 | the recursion holds exactly when the pattern up to the next ':' can be cut onto the string under the meaning of '?' and '*' |
| `TestFilter.MatchesFilter` | third-party/gtest-1.7.0/gtest/gtest-all.cc:1921-1940 | true exactly when one of the ':'-separated patterns matches the whole name; the loop ends |
| `TestFilter.FilterMatchesTest` | third-party/gtest-1.7.0/gtest/gtest-all.cc:1942-1970 | true exactly when a pattern before the first '-' matches (any name if there is none) and none after it does |
| `TestFilter.PicksWithDash` | third-party/gtest-1.7.0/gtest/gtest-all.cc:1944-1972 | a flag p-n without a '-' in p picks what p accepts, everything if p is empty, but for what n accepts |
| `TestFilter.QuestionMarks` | third-party/gtest-1.7.0/gtest/gtest-all.cc:1904-1917 | n question marks accept exactly the names of n characters |
| `TestNames.DeathTestNames` | third-party/gtest-1.7.0/gtest/gtest-all.cc:1619-1622 | a test case counts as a death test exactly when its name ends in DeathTest or has DeathTest/ in it |
| `TestNames.DisabledNames` | third-party/gtest-1.7.0/gtest/gtest-all.cc:1616-1617 | a name is disabled exactly when it begins with DISABLED_ or has /DISABLED_ in it |
| `InList.ChainIsUnique` | include/inlist.hpp:39-110 | the links determine the elements: two chains from the same head are the same |
| `InList.List.Push` | include/inlist.hpp:47-62 | the new element comes first, the others keep their order and links; the assertions admit one wrong call, which makes a cycle |
| `InList.List.Unlink` | include/inlist.hpp:64-78 | exactly the argument is removed, the order is kept, and its links are cleared |
| `InList.List.Pop` | include/inlist.hpp:80-99 | the oldest remaining element is returned with its links cleared |
| `InListRuns.FirstInFirstOut` | include/inlist.hpp:39-110 | over any run of pushes and pops, what was popped and what is left is what was pushed, in order |
| `InListRuns.OrderIsKept` | include/inlist.hpp:39-110 | with unlinks as well, what was popped and what is left is a subsequence of what was pushed |
| `InListRuns.Execute` | include/inlist.hpp:39-110 | any run on a real list gives the elements and the results of the run on sequences |
| `InQueue.MutualExclusion` | include/inlist.hpp:129-234 | in every run at most one thread is in a critical section, and only it changes the queue |
| `InQueue.NoLostWakeup` | include/inlist.hpp:129-202 | in every run, while someone waits, the queue is no longer than the signals still to come, the woken threads that have not looked yet, and the signals that timed-out waits have swallowed since the queue was last empty or nobody waited |
| `InQueue.LostOnlyIfSwallowed` | include/inlist.hpp:129-202 | a waiter beside an element with nobody on the way to it means that a timed-out wait has swallowed a signal since then |
| `InQueue.SwallowMeets` | include/inlist.hpp:129-202 | a signal is swallowed while someone waits only if three different threads pop, pop with a timeout and push |
| `InQueue.TimedPopLosesWakeup` | include/inlist.hpp:187-195 | any three such threads can lose a wakeup: the timed-out one returns null without looking at the queue again |
| `InQueue.NoLostWakeupIffThreeNeverMeet` | include/inlist.hpp:129-202 | a program never loses a wakeup exactly when it has no three such threads |
| `InQueue.SafePrograms` | include/inlist.hpp:129-202 | so not without Pop(ms), with one popping thread, or with two threads in all |
| `InQueueOrder.ListStaysSound` | include/inlist.hpp:129-234 | in every run each operation on the list keeps the list's contract, and the queue is what the operations make of it |
| `InQueueOrder.QueueIsFirstInFirstOut` | include/inlist.hpp:129-234 | what was taken, in the order of the critical sections, followed by the queue, is what was pushed in the order of the critical sections |
| `InQueueOrder.TakenOnceReturnedOnce` | include/inlist.hpp:138-202 | what a thread took is what its calls returned, each element once and in order |
| `InQueueOrder.NullTakesNothing` | include/inlist.hpp:177-195 | a call that returns null has taken nothing and leaves the queue as it is |
| `InQueueCalls.EveryCallIsAnswered` | include/inlist.hpp:129-202 | in every run, each call of Pop that is over has returned one result, as many results of a thread are null as time limits have passed for it, and what it has put into the list, with one signal each, is what it called Push with |
| `InQueueCalls.NullNeedsTimeout` | include/inlist.hpp:166-202 | a null ends a call of Pop(ms) during which a time limit has passed |
| `InQueueCalls.PopReturnsElement` | include/inlist.hpp:138-164 | so a thread that only calls Pop() never gets null: Pop() waits again when woken to an empty queue |
| `InQueueCalls.NullsAreTimeouts` | include/inlist.hpp:166-202 | and Pop(ms) returns null no more often than time limits pass |
| `InQueueCalls.SpinsBeforeSleeping` | include/inlist.hpp:138-164 | a call sleeps only after it has looked at the queue in every turn of spinning and once more |
| `InQueueCalls.NeverStuck` | include/inlist.hpp:129-202 | as long as a call is neither over nor asleep, some thread can go on |
| `InQueueCalls.PopAloneTakes` | include/inlist.hpp:138-164 | a call on its own, with the lock free and an element there, returns the oldest one |
| `InQueueCalls.WokenAloneTakes` | include/inlist.hpp:155-161 | and so does a woken one, or it sleeps again if there is none |
| `InQueueOrder.ReplayOnList` | include/inlist.hpp:112-234 | the critical sections of any run, done on the real list, leave the elements of the queue in it |
| `SpinMutex.MutualExclusion` | include/lock.h:226-289 | whatever the owner field starts as, one thread holds the lock, and the word is OPEN or CLOSED and says whether one does |
| `SpinMutex.LockReturnsWithLock` | include/lock.h:261-270 | a call of Lock() has taken the lock before it returns, in every run |
| `SpinMutex.TryLockTakesIffOpen` | include/lock.h:247-259 | a call of TryLock() looks once, takes the lock exactly when it is open then, and returns without it and with nothing changed otherwise |
| `SpinMutex.UnlockReturnsWithout` | include/lock.h:272-279 | a thread that is outside does not have the lock |
| `SpinMutex.LockAlone` | include/lock.h:261-270 | on its own, with the lock open, Lock() ends with the caller inside and as the owner |
| `SpinMutex.UnlockAlone` | include/lock.h:272-279 | and Unlock() with the lock open and no owner |
| `SpinMutex.StaysSound` | include/lock.h:247-289 | what every step keeps when the owner field starts as none of several threads: the word, the owner and the position of every thread agree |
| `SpinMutex.OwnerIsRight` | include/lock.h:261-289 | then a thread inside is the owner, no assertion fails and IsOwner() misleads nobody |
| `SpinMutex.IsOwnerInside` | include/lock.h:286-289 | IsOwner() called inside finds the word closed and the caller as the owner, and changes nothing |
| `SpinMutex.IsOwnerOutside` | include/lock.h:286-289 | called outside it finds the word open or another owner, and changes nothing |
| `SpinMutex.UnownedStartIsNeeded` | include/lock.h:234-239 | if the owner field starts as one of several threads, a run exists in which the invariant of Lock() fails |
| `SpinMutex.NeverFailsIffStartsUnowned` | include/lock.h:261-289 | no run fails exactly when the owner field starts as none of the threads, or there is only one |
| `PerfCounter.BucketIndex` | include/perfcounter.h:149-165 | the shift loop finds the bucket i below 32 with 2^i <= v < 2^(i+1), and bucket 0 for 0 |
| `PerfCounter.BucketOfIsRight` | include/perfcounter.h:151-155 | the number of halvings is the bucket of the value |
| `PerfCounter.Counter.UpdateBucket` | include/perfcounter.h:149-166 | one bucket is incremented modulo its width, and no other changes |
| `PerfCounter.Counter.Update` | include/perfcounter.h:46-64 | a call on its own adds to the sum and the count modulo their width, and lowers and raises the extremes as it should |
| `PerfCounterRuns.CallAloneEnds` | include/perfcounter.h:46-64 | from any point of any run, a call that goes on alone is done after nine operations at most |
| `PerfCounterRuns.CallAloneUpdates` | include/perfcounter.h:46-64 | and a whole call that goes on alone does what the undisturbed call does |
| `PerfCounterRuns.CounterIsExactAtRest` | include/perfcounter.h:46-64 | however any number of calls interleave, once they are done the counter holds the sum, the number, the minimum, the maximum and the histogram of their values |
| `PerfCounterRuns.CellsOnlyImprove` | include/perfcounter.h:51-61 | the minimum never rises and the maximum never falls |
| `PerfCounterRuns.FailuresAreCounted` | include/perfcounter.h:52-61 | a failure is a swap that leaves the cell as it is |
| `PerfCounterRuns.FailureIsProgressOfAnother` | include/perfcounter.h:52-61 | a swap fails only if another call has succeeded since the cell was read, and a call fails fewer times than there are calls |
| `PerfCounterRuns.BucketsCountCalls` | include/perfcounter.h:151-165 | the buckets together count every call once |
| `ThreadContext.CleanupPool` | include/thread-ctx.h:80-92 | every buffer in the pool is freed once, then the pool |
| `ThreadContext.Context.Init` | include/thread-ctx.h:40-53 | the thread and its thread-local variables agree on a fresh empty pool |
| `ThreadContext.Context.Cleanup` | include/thread-ctx.h:55-78 | the pool is released and nothing points to it any more |
| `ThreadContext.Context.GarbageCollect` | include/thread-ctx.h:94-127 | after the timeout every buffer in the pool is freed and none is left in it; before that nothing changes |
| `ThreadContext.Thread.Destroy` | util/thread.cc:11-27 | what a cancelled thread left is released, and a second call finds nothing |
| `ThreadLifecycle.NothingIsFreedTwice` | util/thread.cc:29-52 | in every run of threads, cancellations, collections and calls of Destroy none of which overlaps another one or a thread that runs, no buffer and no pool is freed twice and no invariant of the context fails |
| `ThreadLifecycle.FreesOnlyLive` | include/thread-ctx.h:80-127 | in such a run, whatever a step hands to free() is allocated and in the pool it comes from, and is the only buffer that goes |
| `ThreadLifecycle.DeletesOnlyOwn` | include/thread-ctx.h:55-92 | and a pool that a step deletes is the thread's own and has been emptied |
| `ThreadLifecycle.FaultIffOverlap` | util/thread.cc:11-27 | up to its last step, a run without overlapping calls can go on to free something twice exactly when that step is a call of Destroy that finds a pool while another call is under way or the thread still runs: the assumption in lines 18-21 is needed, and is enough |
| `ThreadLifecycle.DestroyedTwice` | util/thread.cc:11-27 | from every initial state and for every thread, a run in which two calls overlap and that goes on to free something twice |
| `ThreadLifecycle.DestroyedWhileRunning` | util/thread.cc:18-21 | and one in which a call overlaps the running thread |
| `ThreadLifecycle.CollectFreesAll` | include/thread-ctx.h:94-127 | a collection, from any point of it and in any run without overlapping calls, frees every buffer in the pool and no other, empties the pool and lets the thread go on |
| `ThreadLifecycle.BufferIsPooled` | include/thread-ctx.h:40-127 | a running thread can allocate a buffer, put it at any place of its pool and take it out again |
| `ThreadLifecycle.NothingLeaksIffDestroyedFirst` | util/thread.cc:11-52 | once all threads are over and destroyed, all pools and their buffers are freed, exactly when no thread was started again before it was destroyed |
| `ThreadLifecycle.LostPoolStays` | include/thread-ctx.h:47-52 | the pool of a thread that is started again without that is never freed |
| `ThreadLifecycle.PoolIsLost` | include/thread-ctx.h:47-52 | from every initial state and for every thread, a run that ends with all threads over and a pool left |
| `Shuffle.Random.Generate` | third-party/gtest-1.7.0/gtest/gtest-all.cc:1752-1769 | a number below the range, from the next state of the generator; none for an empty or too wide range |
| `Shuffle.ShuffleRange` | third-party/gtest-1.7.0/gtest/gtest-all.cc:713-735 | the swaps make of the vector what the numbers drawn say; an invalid range is refused |
| `Shuffle.DrawsAreConsecutive` | third-party/gtest-1.7.0/gtest/gtest-all.cc:728-734 | the draws for a range are consecutive states of the source, each reduced to what is left of the range |
| `Shuffle.ShuffleIsPermutation` | third-party/gtest-1.7.0/gtest/gtest-all.cc:728-734 | whatever is drawn, the range is permuted and the rest stays |
| `Shuffle.EveryOrderCanBeDrawn` | third-party/gtest-1.7.0/gtest/gtest-all.cc:728-734 | every order of the range can be drawn |
| `Shuffle.DrawsAreDetermined` | third-party/gtest-1.7.0/gtest/gtest-all.cc:728-734 | by one series of numbers only, so that even draws give every order equally often |
| `TestOrder.UnitTestImpl.GetTestCase` | third-party/gtest-1.7.0/gtest/gtest-all.cc:5918-5951 | a known name finds its test case; a new death test case goes behind the others of its kind, and any other to the end |
| `TestOrder.UnitTestImpl.AddTestInfo` | third-party/gtest-1.7.0/gtest/gtest-all.cc:1061-1081 | a test goes behind the other tests of its case, which is made in its place if there is none; the other cases keep their tests and their order |
| `TestOrder.UnitTestImpl.ShuffleWithSeed` | third-party/gtest-1.7.0/gtest/gtest-all.cc:6036-6043 | the order of an iteration depends on its seed and on nothing drawn before |
| `TestOrder.UnitTestImpl.ShuffleTests` | third-party/gtest-1.7.0/gtest/gtest-all.cc:6346-6358 | the order of the test cases, and of the tests in each, is the one that the numbers drawn one after the other say; death test cases stay in front |
| `TestOrder.TestCase.ShuffleTests` | third-party/gtest-1.7.0/gtest/gtest-all.cc:4206-4209 | the tests of one case are shuffled as a whole |
| `TestOrder.UnitTestImpl.UnshuffleTests` | third-party/gtest-1.7.0/gtest/gtest-all.cc:6361-6368 | the order of registration is restored for test cases and tests |
| `TestOrder.ShuffledCasesKeepOrder` | third-party/gtest-1.7.0/gtest/gtest-all.cc:6346-6352 | after shuffling, the indices are still a permutation that keeps the death test cases in front |
| `TestOrder.LastCasesAreDrawn` | third-party/gtest-1.7.0/gtest/gtest-all.cc:6346-6352 | the first draw for each kind of test case decides which of all of that kind runs last |
| `TestOrder.ShuffledCaseIsDrawn` | third-party/gtest-1.7.0/gtest/gtest-all.cc:6354-6357 | the tests of a case are permuted, and the first draw decides which of all of them runs last |
| `TestOrder.CasesDrawInTurn` | third-party/gtest-1.7.0/gtest/gtest-all.cc:6354-6357 | each case is shuffled with the numbers that the source yields after those for the cases before it |
| `TestOrder.SomeSeedShufflesTests` | third-party/gtest-1.7.0/gtest/gtest-all.cc:6354-6357 | seed 1 or seed 2 changes the order of two tests or more |
| `TestOrder.UnitTestImpl.DeathTestsRunFirst` | third-party/gtest-1.7.0/gtest/gtest-all.cc:6058-6061 | in any order that shuffling leaves, every test case runs once, and no death test case after another kind |
| `TestOrder.UnitTestImpl.LookupsAgreeIffUnshuffled` | third-party/gtest-1.7.0/gtest/gtest-all.cc:991-1003 | the constant lookup finds the test case that runs at a position exactly when the order is not shuffled |
| `TestOrder.CasesStayIffAlone` | third-party/gtest-1.7.0/gtest/gtest-all.cc:6346-6352 | every seed leaves the test cases in order exactly when no two are of one kind |
| `TestOrder.SomeSeedShuffles` | third-party/gtest-1.7.0/gtest/gtest-all.cc:6346-6352 | otherwise seed 1 or seed 2 changes the order |
| `Sharding.ShouldShard` | third-party/gtest-1.7.0/gtest/gtest-all.cc:6126-6166 | sharding is on exactly for consistent variables and more than one shard, off without variables or with one shard, and everything else is fatal |
| `Sharding.EachTestOnOneShard` | third-party/gtest-1.7.0/gtest/gtest-all.cc:6185-6191 | every runnable test is selected on exactly one shard, and no other test on any |
| `Sharding.ShardSize` | third-party/gtest-1.7.0/gtest/gtest-all.cc:6238-6244 | how many tests a shard gets, exactly |
| `Sharding.ShardsAreBalanced` | third-party/gtest-1.7.0/gtest/gtest-all.cc:6238-6244 | the sizes of two shards differ by at most one |
| `Sharding.FilterTest` | third-party/gtest-1.7.0/gtest/gtest-all.cc:6218-6246 | the flags of one test, from the filters and its number |
| `Sharding.RunnableIs` | third-party/gtest-1.7.0/gtest/gtest-all.cc:6220-6236 | a test is runnable exactly when the flag picks case.test and neither name is marked as disabled, unless that is to be ignored |
| `Sharding.FilterTests` | third-party/gtest-1.7.0/gtest/gtest-all.cc:6193-6251 | every test and case has the flags it should, a case runs exactly when one of its tests does, and the count is that of the selected tests |
| `Sharding.CountIsFlagged` | third-party/gtest-1.7.0/gtest/gtest-all.cc:6244-6250 | the returned count is the number of tests flagged to run |
| `XmlWriter.EscapeXml` | third-party/gtest-1.7.0/gtest/gtest-all.cc:4886-4927 | the loop writes the piece of every character in turn |
| `XmlWriter.RemoveInvalidXmlCharacters` | third-party/gtest-1.7.0/gtest/gtest-all.cc:4932-4941 | the loop keeps the valid characters |
| `XmlWriter.ValidKeepsAll` | third-party/gtest-1.7.0/gtest/gtest-all.cc:4929-4941 | exactly the valid characters are kept, and all is kept exactly when all are valid |
| `XmlWriter.EscapedReadsBack` | third-party/gtest-1.7.0/gtest/gtest-all.cc:4874-4927 | read as XML, an escaped attribute value gives exactly the valid characters of the string, and escaped text the same with line feeds for its line ends |
| `XmlWriter.AttributeIsRead` | third-party/gtest-1.7.0/gtest/gtest-all.cc:4916-4918 | white space in an attribute value survives its normalization |
| `XmlWriter.RemovedAsDocumented` | third-party/gtest-1.7.0/gtest/gtest-all.cc:4772-4775 | only what may not appear in a document is removed exactly when char is unsigned or the string is ASCII |
| `XmlWriter.AttributeKeepsAllIff` | third-party/gtest-1.7.0/gtest/gtest-all.cc:4874-4882 | and exactly then an attribute value is read back without other loss |
| `XmlWriter.AccentedLetterIsDropped` | third-party/gtest-1.7.0/gtest/gtest-all.cc:4772-4775 | a string for which it is not so: both bytes of an accented letter are removed |
| `XmlWriter.NoMarkup` | third-party/gtest-1.7.0/gtest/gtest-all.cc:4893-4912 | no markup and, in an attribute value, no quote of either kind is left in the escaped string |
| `XmlWriter.WrittenAsIsIff` | third-party/gtest-1.7.0/gtest/gtest-all.cc:4886-4927 | a string is written as it is exactly when it has only valid characters, none of which must be escaped |
| `XmlCData.OutputXmlCDataSection` | third-party/gtest-1.7.0/gtest/gtest-all.cc:4998-5015 | the loop splits the data at every "]]>" and ends |
| `XmlCData.CDataReadsBack` | third-party/gtest-1.7.0/gtest/gtest-all.cc:4997-5015 | for every string, overlapping brackets included, reading the sections gives back the string, with line feeds for its line ends |
| `XmlCData.CDataIsKeptIff` | third-party/gtest-1.7.0/gtest/gtest-all.cc:4997-5015 | so the string itself is read back exactly when it has no carriage return |
| `Utf8.DecodeEncode` | third-party/gtest-1.7.0/gtest/gtest-all.cc:3144-3151 | a strict decoder gives back every list of code points of up to 21 bits |
| `Utf8.EncodeDecode` | third-party/gtest-1.7.0/gtest/gtest-all.cc:3144-3151 | and accepts nothing but what the encoding writes |
| `Utf8.PrefixFree` | third-party/gtest-1.7.0/gtest/gtest-all.cc:3144-3151 | no code point's bytes begin those of another |
| `Utf8.Injective` | third-party/gtest-1.7.0/gtest/gtest-all.cc:3144-3151 | different lists have different bytes |
| `WideStrings.CodePointToUtf8` | third-party/gtest-1.7.0/gtest/gtest-all.cc:3165-3206 | the buffer holds the bytes of the layout, or the message for a value of more than 21 bits, or nothing for NUL |
| `WideStrings.WrittenAsDocumented` | third-party/gtest-1.7.0/gtest/gtest-all.cc:3177-3183 | a value is written as documented exactly when it is not beyond 0x10FFFF and within 21 bits |
| `WideStrings.ConvertedAsDocumented` | third-party/gtest-1.7.0/gtest/gtest-all.cc:3239-3243 | and a string exactly when it has no such value among its code points |
| `WideStrings.UnitsAreKept` | third-party/gtest-1.7.0/gtest/gtest-all.cc:3247-3249 | where wchar_t has two bytes, the values written are the units of any string, those of surrogates that are no pair one by one, and no pair is left uncombined |
| `WideStrings.UnitsAreUnique` | third-party/gtest-1.7.0/gtest/gtest-all.cc:3247-3249 | which leaves one reading of any string |
| `WideStrings.MessageIsRead` | third-party/gtest-1.7.0/gtest/gtest-all.cc:3181-3183 | the message holds the value in hexadecimal |
| `WideStrings.BeyondUnicodeIsEncoded` | third-party/gtest-1.7.0/gtest/gtest-all.cc:3181-3183 | 0x110000 is such a value: four bytes instead of the message |
| `WideStrings.NothingBeyondInUtf16` | third-party/gtest-1.7.0/gtest/gtest-all.cc:3212-3229 | with a two-byte wchar_t there is none |
| `WideStrings.WideStringToUtf8` | third-party/gtest-1.7.0/gtest/gtest-all.cc:3231-3265 | with -1 the whole string is converted, with a limit what that leaves of it, and nothing with any other negative number: in four bytes it is read back as the string, or its first characters, and in two bytes as the Unicode text it is the UTF-16 of |
| `WideStrings.Utf32IsDecoded` | third-party/gtest-1.7.0/gtest/gtest-all.cc:3233-3234 | with a four-byte wchar_t, decoding gives back every string of code points |
| `WideStrings.Utf16IsDecoded` | third-party/gtest-1.7.0/gtest/gtest-all.cc:3212-3229 | with a two-byte wchar_t, decoding what is made of the UTF-16 of a Unicode text gives back the text |

## Left out

- InList.List.Unlink: asks for an element of this list, which the assertions do not check, because linking out of another list has no meaning for this one.
- RegexMatcher.MatchRegexAtHead: is about strings shorter than the largest size_t, as the repetition counter is.
- EditScript.CalculateOptimalEdits: has exact costs instead of the rounding of 1.00001 in floating point.
- Shuffle.ShuffleRange: is about vectors whose size fits an int.
- Sharding.FilterTests: takes the values of the flags and variables as parameters, and positive shard counts only.
- SpinMutex.OwnerIsRight: treats the owner field as read and written atomically; well-behaved callers only unlock what they have locked.
- ThreadLifecycle.NothingIsFreedTwice: has deferred cancellation, which does not act inside a collection, and does not start a thread while a call of Destroy releases the pool left over from its last run.
- WideStrings.ChopLowBits: masks and shifts as remainders and quotients, and sets bits of a byte by adding where they are known to be clear.
- XmlReader.Read: reads references to ASCII characters in hexadecimal and the five predefined entities only, which is all that is written.
- Liveness under a fair scheduler, of the spin lock and the queue.
- The pthread, clock and time stamp layers: locking, waiting, signalling and timing out are steps of the models.
- `InQueue::IsEmpty`, and `Queue`, which is the blocking part of `InQueue` without spinning, on a standard queue.
- `PThreadRWLock`: its writer takes a read lock (include/lock.h:347), so there is no exclusion to prove.
- `StateMachine`, `BoundedQ`, `AutoPtr`, `Singleton`, `Math` and `RRCpuId`: they would only add easy members.
- Logging, printing of counters, `TimeCounter` and `SysConf`: output and queries of the system.
- The POSIX regex branch, death-test forking, sockets, colours, file paths, flags and environment, result printers and the rest of the framework.

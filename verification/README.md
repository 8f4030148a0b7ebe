# Spidercheck, verified

A Dafny model of Spidercheck, a web crawler that keeps sites, pages, links,
plug-in values and page schedules in a database, checks pages one at a time, and
offers a few maintenance operations. Next to the crawler the model covers the two
utility modules it leans on: reading dates from text and stepping through months,
and cutting texts and sequences into pieces.

`dafny verify dfyconfig.toml` checks everything.

## How the model is laid out

| file | contents |
|---|---|
| `Url.dfy` | splitting, resolving and recomposing URLs |
| `UrlParts.dfy`, `DotSegments.dfy` | what splitting and resolving make of every text, and which URLs are local |
| `PageUrls.dfy` | the addresses printed for a page, and which keys they lead back to |
| `Tables.dfy` | the rows, their constraints (`Inv`), the elementary writes |
| `Frontier.dfy` | which page is checked next |
| `Checks.dfy` | what one check writes: the page row, its links, its values |
| `Steps.dfy` | creating, resetting, toggling, deleting, scheduling |
| `Outcomes.dfy`, `Effects.dfy` | what each check and each operation changes, row by row |
| `Machine.dfy` | all steps as one state machine, and what every run keeps |
| `Crawl.dfy`, `BreadthFirst.dfy`, `Completion.dfy` | crawling a site whose links do not change |
| `LinkGraph.dfy` | the links such a crawl stores |
| `Fairness.dfy`, `Schedules.dfy` | how long a page can wait |
| `Expunging.dfy` | what a deletion loop can remove |
| `Restart.dfy`, `Twins.dfy` | resetting a site, and why it then crawls like a new one |
| `Addresses.dfy` | where stored addresses come from, and where printed ones lead |
| `Spidercheck.dfy` | the crawler as a class whose methods update its tables in place |
| `Calendar.dfy`, `Patterns.dfy`, `DateText.dfy`, `DateRoundTrip.dfy`, `DateForms.dfy`, `Decimal.dfy` | dates |
| `Chunks.dfy` | texts and sequences in pieces |
| `Numbers.dfy`, `Options.dfy` | the smaller of two numbers, and values that may be missing |

The class `Spidercheck.Database` holds the tables as fields. Each of its methods is
proved to take the rows to the value of a function of the old rows, which is a step
of the state machine; the theorems are about those functions and about runs of them.
What each function means is stated apart from its definition: on rows, texts and
segments, in the modules just named for that.

## Modelling decisions

- The web is what a check is told: a refusal with an integer code, or a response
  with a status, a content type, a size, the final URL, and a body that is
  unreadable, not HTML after all, or HTML with the valid links found in it, in any
  order and with repetitions. `Page.is_valid` returns neither the response nor
  always a code (src/spidercheck/models.py:450-453), although `check_page` reads
  both; the model follows the interface described in docs/procesos.rst.
- A body that cannot be fetched makes `check_page` raise, because
  `get_text_from_url` then returns four values where two are unpacked
  (src/spidercheck/core.py:34, 152). This is the report `Crashed`; it ends
  `check_site`.
- One clock stands for `just_now()`, `Now()` and the automatic timestamps. It moves
  by one with every creation and every check, and by any amount in between. The
  coin of the retry branch is an argument.
- An ordered query answers any first row of its order. With the clock above the
  first row is unique, which `SelectionIsUnique` proves where no schedule is due.
- Rows are keyed by identifiers that are never used again. A link is its pair of
  ends and a value its page and name, so those two uniqueness constraints hold by
  construction; that keys are unique per site is proved.
- Schedules are created and removed by an administrator, not by the code modelled
  here; both are steps of the state machine.
- Theorems about a crawl speak of a web that keeps its links. They allow any other
  step meanwhile (other sites, flags, schedules, checks by hand, waiting) that does
  not remove pages of the site. Bounded waiting only asks for this from the moment
  at which everything is known; what happened before is arbitrary.

## Where the code and its documentation or its own other parts disagree

The model follows the code.

- The documentation says that only pages below the seed are stored
  (docs/definitions.rst); `is_local` compares scheme and host only.
- `next_month` clamps 31 January to 28 or 29 February; its comment says 27 or 28.
- `pages_with_errors` takes status 300 for a success, `is_ok` for an error
  (`Frontier.ErrorUnlessOk`).
- `init_site` stores the seed path as it is, `reset_site` splits it as a URL again.
  A seed path that starts with two slashes is therefore lost by a reset: the site of
  `http://h//` stores its seed before the reset and not after it
  (`Restart.ResetLosesSeed`; exactly when: `Restart.ResetKeepsSeedExactly`).
- A printed page address resolves dot segments, a stored one keeps them: adding the
  seed page of `http://h/a/../b` by its own address creates another page
  (`Addresses.DottedSeedIsLost`). On a site without a path a stored path is printed
  as it is and then read as a URL: a link to `http:y:z` is stored under `y:z` and
  read back as `z` (`PageUrls.ColonIsLost`). Exactly when a page is found again, on
  any site: `Addresses.OwnUrlInRuns`.
- Full addresses are not unique: on a site without a path the keys `x` and `/x` print
  the same one (`PageUrls.AddressesCollide`; exactly when: `PageUrls.FullUrlsEqual`).
- The RFC 822 pattern wants at least one character after the seconds. In a text
  without a zone it takes their last digit for it, so 10:20:30 is read as 10:20:03
  (`DateRoundTrip.SecondsAreCut`; exactly when a printed time comes back:
  `DateRoundTrip.DateTimeRoundTrips`).
- A year up to 100 is read as a year of the twenty-first century, so a printed date
  is read back unchanged exactly when its year is over 100.
- `text_as_fragments` makes progress on every text exactly when both sizes are
  positive (`Chunks.ProgressExactly`), `batch` on every sequence exactly when its
  size is (`Chunks.BatchProgressExactly`); the methods ask for that and for nothing
  else.

## Model

| member | source | states |
|---|---|---|
| Spidercheck.Database.NextPageToCheck | src/spidercheck/models.py:167-194 | the page offered is an overdue one, none being sooner; else, if the coin asks, the broken one checked longest ago; else the unchecked one created first; else the one checked longest ago |
| Spidercheck.Database.LoadOrCreate | src/spidercheck/models.py:220-252 | returns the page stored under the key, creating it exactly when there was none; every constraint is kept |
| Spidercheck.Database.AddUrl | src/spidercheck/models.py:254-262 | the same for an address, after dropping its fragment |
| Spidercheck.Database.UpdateLinks | src/spidercheck/core.py:77-110 | the incremental loop ends where replacing the page's targets would; the two returned sets are before minus after and after minus before |
| Spidercheck.Database.RunPlugins | src/spidercheck/core.py:55-74 | deleting stale names and upserting one by one ends in the override-merge; success exactly when no plug-in raised |
| Spidercheck.Database.Upsert | src/spidercheck/models.py:640-663 | sets one value of one page, creating the slot if needed, and nothing else |
| Spidercheck.Database.CheckPage | src/spidercheck/core.py:129-170 | the rows and the report after one check, in each of its outcomes; what they are, answer by answer, is stated by the rows of `Outcomes` |
| Spidercheck.Database.CheckSite | src/spidercheck/core.py:227-251 | yields exactly max(num, 0) reports if the site has a page and none otherwise, unless a check raises, which ends it; what it did is a run of the state machine |
| Spidercheck.Database.InitSite | src/spidercheck/core.py:173-213 | creates the site and its seed page, or fails without change when name or address is taken |
| Spidercheck.Database.ResetSite | src/spidercheck/core.py:216-224 | clears the site and adds its seed path again, or reports that there is no such site |
| Spidercheck.Database.ToggleIsLinkable | src/spidercheck/views.py:207-219 | the flag is flipped, a page no longer linkable loses the links into it and they are counted, nothing else changes |
| Spidercheck.Database.PageDelete | src/spidercheck/views.py:222-228 | deletes the page and what refers to it exactly when nothing links to it |
| Spidercheck.Database.SiteExpunge | src/spidercheck/views.py:231-244 | runs the deletion loop over exactly the selected pages of the site, in order of creation; the counter is the number of pages gone |
| Spidercheck.Database.SiteExpungeAll | src/spidercheck/views.py:247-259 | the same over a given list of orphans |
| Frontier.SelectionIsTotal | src/spidercheck/models.py:167-194 | some page can be offered, and every answer is a page of the site, exactly when the site has one |
| Frontier.SelectionIsUnique | src/spidercheck/models.py:184-194 | with no schedule due the coin determines the answer |
| Frontier.SelectionMeans | src/spidercheck/models.py:184-194 | the four-way choice allows exactly those pages, stated on schedules, statuses and times |
| Frontier.ErrorUnlessOk | src/spidercheck/models.py:153-159 | helper: being listed as an error is the opposite of being ok, except at status 300 |
| Tables.AddAllGrows | src/spidercheck/models.py:220-262 | adding any list of keys keeps every constraint, leaves old rows alone, stores every key and creates only pages that were missing |
| Tables.LookupUnique | src/spidercheck/models.py:302-307 | helper: a key names at most one page of a site |
| Checks.UpdateLinksRefines | src/spidercheck/core.py:94-110 | afterwards the page links to exactly the linkable pages named, other pages' links are untouched, and the sizes of what went and came balance |
| Checks.UpdateLinksTwice | src/spidercheck/core.py:94-110 | a second run over the same links in any order changes nothing and creates no page |
| Checks.LinkedExtend | src/spidercheck/core.py:96-100 | one turn of the link loop: a page is found or created, and linked if it is linkable |
| Checks.ReconciledLinks | src/spidercheck/core.py:101-110 | removing before minus after from the links gathered leaves exactly the wanted targets |
| Checks.RunPluginsStores | src/spidercheck/core.py:55-74 | the values are exactly the merge, whatever was stored; other pages keep theirs; a second round changes nothing |
| Checks.MergeTakesLast | src/spidercheck/core.py:58-64 | each merged value comes from the last successful plug-in that produced the name |
| Checks.CheckChanges | src/spidercheck/core.py:129-170 | a check stamps its page, keeps its identity, leaves every other row alone and adds only named pages, later than itself |
| Checks.CheckOutgoing | src/spidercheck/core.py:148-170 | the page's links become the named pages, none after a redirection off the site, or stay |
| Checks.CheckKeepsOtherLinks | src/spidercheck/core.py:94-110 | a check leaves the links of every other page as they were |
| Checks.CheckValues | src/spidercheck/core.py:148-170 | values change only for a page that was read, and become the merge |
| Outcomes.ContentTypeCuts | src/spidercheck/core.py:38-42 | the media type is the header up to its first semicolon, in lower case |
| Outcomes.HtmlExactly | src/spidercheck/core.py:50-52 | a header announces HTML exactly when it is text/html in any case, alone or before a semicolon |
| Outcomes.AnswerIsStored | src/spidercheck/core.py:144-166 | the row keeps identity and takes time, status, type and size of the answer; 418 if the text is not HTML after all |
| Outcomes.RefusalMeans | src/spidercheck/core.py:137-142 | a refusal stores its code as the status, nothing else, and is a failure |
| Outcomes.OtherHeaderMeans | src/spidercheck/core.py:148-170 | under any other header only the row changes |
| Outcomes.ElsewhereMeans | src/spidercheck/core.py:168-170 | HTML from a URL that is not local costs the page its links; pages and values stay |
| Outcomes.AbroadMeans | src/spidercheck/core.py:150-170 | so does HTML whose final URL names another scheme or another host |
| Outcomes.BadTextMeans | src/spidercheck/core.py:160-166 | text that is not HTML makes status 418 and a failure; text that cannot be had ends the call |
| Outcomes.CrawlMeans | src/spidercheck/core.py:77-110 | HTML from the site: every named key is stored, the page links to exactly the linkable named pages, other links stay |
| Outcomes.ValuesMean | src/spidercheck/core.py:55-74 | its values are the texts of what the last plug-in to return each name returned; all other values stay |
| Outcomes.ReportMeans | src/spidercheck/core.py:153-159 | the report has the links that came, the links that went, and whether no plug-in raised |
| Outcomes.StrMeans | src/spidercheck/models.py:660 | each kind of value as text, numbers in decimal without leading zeros |
| Machine.NextKeepsInv | src/spidercheck/models.py:302-332 | every step keeps keys unique per site, rows attached, links inside one site and to linkable pages, and is_checked equal to checked_at after the epoch |
| Machine.EveryRunIsValid | src/spidercheck/models.py:537-554 | so does every interleaving of all steps from the empty database |
| Machine.RunAges | src/spidercheck/models.py:326-332 | along any run clock, identifiers and check times never go back |
| Crawl.CrawlReachesExactly | src/spidercheck/core.py:94-110 | every stored key is reachable from the seed, and when nothing is unchecked the stored keys are exactly the reachable ones |
| LinkGraph.CrawlStoresLinks | src/spidercheck/core.py:77-110 | while the flags stay, a checked page links to exactly the linkable pages stored under the targets the web has there, an unchecked one to none; a finished crawl stores every link of the web between reachable keys |
| LinkGraph.InitIsUnlinked | src/spidercheck/core.py:204-213 | a new site starts without links, as that theorem asks |
| LinkGraph.ResetIsUnlinked | src/spidercheck/core.py:222-223 | so does a reset one |
| Crawl.InitIsFresh | src/spidercheck/core.py:204-213 | a new site has one page, its seed, unchecked |
| Crawl.ClearIsFresh | src/spidercheck/core.py:222-223 | so has a reset one |
| BreadthFirst.FirstChecksByDistance | src/spidercheck/models.py:124-136 | pages are first checked in order of link distance from the seed, however the coins fall and whatever is checked again, by schedule or by hand, meanwhile |
| BreadthFirst.DiscoveredDist | src/spidercheck/core.py:96-100 | what the oldest unchecked page discovers is exactly one link further away |
| BreadthFirst.CheckBudget | src/spidercheck/core.py:129-131 | first checks made plus reachable keys not yet checked is constant |
| BreadthFirst.FrontierEmptiesExactly | src/spidercheck/core.py:247-251 | with N reachable keys there are at most N first checks, and nothing is unchecked exactly when there were N |
| Completion.CheckSiteCompletes | src/spidercheck/core.py:227-251 | a call of check_site on a fresh site that has declined a retry N times has stored and checked exactly the N reachable keys |
| Fairness.ScheduledPicksApart | src/spidercheck/models.py:675-685 | two picks of one page by the scheduled branch are more than its rotation apart |
| Fairness.ScheduledCannotStarve | src/spidercheck/models.py:184-189 | with m scheduled pages and selections close enough, any m + 1 selections include one the scheduled branch did not make |
| Fairness.WaitIsBounded | src/spidercheck/models.py:132-136 | from any state in which every page is checked and every target stored: while a page waits its rank by age never rises and every queue pick lowers it |
| Fairness.QueueGoesRound | src/spidercheck/models.py:132-136 | from any such state, n uninterrupted queue picks over n pages are a permutation of the pages |
| Fairness.CrawlSettles | src/spidercheck/models.py:124-136 | every crawl from a fresh site reaches such a state as soon as nothing is unchecked |
| Fairness.RetryWaitIsBounded | src/spidercheck/models.py:190-191 | a page in error stays in error while it waits, and at most as many retries go to others as there were older errors |
| Schedules.DueWaitIsBounded | src/spidercheck/models.py:184-189 | while an overdue page waits it stays overdue, and the schedule serves at most as many other pages as there were scheduled ones ahead of it |
| Schedules.AheadIsOlder | src/spidercheck/models.py:716 | for a page checked before, those ahead are the scheduled pages with an older check |
| Fairness.ErrorAfterCheck | src/spidercheck/core.py:135-166 | helper: the status that a check leaves decides whether its page is among the errors |
| Expunging.SupportedSurvive | src/spidercheck/views.py:236-242 | pages that are unselected or linked from one another survive any order of deletion |
| Expunging.CyclesSurvive | src/spidercheck/views.py:236-242 | a page on a link cycle is never deleted |
| Expunging.ReachedSurvive | src/spidercheck/views.py:236-242 | nor is one that links lead to from an unselected page |
| Expunging.UnlinkedAreDeleted | src/spidercheck/models.py:391-402 | a selected page without incoming links always is |
| Expunging.SurvivorsKeepLinks | src/spidercheck/models.py:545-554 | every survivor keeps exactly its outgoing links |
| Expunging.ExpungePrunes | src/spidercheck/views.py:236-242 | a deletion loop leaves rows, links, values and schedules of the survivors as they were, and unselected pages in place |
| Expunging.DeletedExactly | src/spidercheck/views.py:236-242 | for the order the loop takes: a row is deleted exactly when, at its turn, every page that linked to it is gone |
| Expunging.DeletableExactly | src/spidercheck/views.py:236-242 | whatever is selected, some order deletes exactly the pages in no supported set, the most any order can |
| Steps.ToggleTwice | src/spidercheck/views.py:207-219 | toggling twice restores everything exactly when nothing linked to the page |
| Steps.InitOnce | src/spidercheck/core.py:192-193 | helper: a name can be used once; the second attempt changes nothing |
| Effects.AddPageMeans | src/spidercheck/models.py:220-252 | a key that is stored changes nothing; a new one adds one row, linkable, unchecked, of status 0 |
| Effects.InitMeans | src/spidercheck/core.py:192-213 | a taken name or address changes nothing; else the site is stored with the parts of its URL and a page of status -1 under its path |
| Effects.ResetMeans | src/spidercheck/core.py:216-224 | the rows of the site and all that refers to them are replaced by one row of status 0; every other row stays |
| Effects.ToggleMeans | src/spidercheck/views.py:208-219 | the flag flips, the links into a page that was linkable go, nothing else changes |
| LinkGraph.ToggledStaysUnlinked | src/spidercheck/views.py:209-211 | in every run, once a linkable page was toggled no link leads to it until it is toggled again, whatever the checks find |
| Effects.DeleteMeans | src/spidercheck/models.py:391-402 | a page that a link leads to stays; any other goes with its own links, values and schedule, and nothing else |
| Effects.ScheduleMeans | src/spidercheck/models.py:718-729 | a schedule is set for one page with its rotation and time |
| Effects.UnscheduleMeans | src/spidercheck/models.py:718-729 | a schedule is removed from one page |
| Restart.ResetIsFresh | src/spidercheck/core.py:216-224 | after a reset the site has one unchecked page with nothing attached |
| Restart.ResetIsIsolated | src/spidercheck/core.py:222 | and no row of any other site has changed |
| Restart.ResetSeedKey | src/spidercheck/core.py:194-223 | splitting a seed path again gives its key exactly when the path starts with neither a scheme nor two slashes |
| Restart.ResetKeepsSeedExactly | src/spidercheck/core.py:194-223 | in every run, a reset site stores the seed it was created with exactly when the path has no scheme and no two leading slashes; for a seed with a host, exactly when no two leading slashes |
| Restart.ResetLosesSeed | src/spidercheck/core.py:194-223 | the site created from http://h// has its seed before the reset and not after |
| Twins.SameChoice | src/spidercheck/models.py:167-194 | two sites with the same visible history are offered the same key |
| Twins.CheckTwins | src/spidercheck/core.py:129-170 | and stay alike after the same answer |
| Twins.ResetCrawlsLikeNew | src/spidercheck/core.py:216-224 | a reset site crawls, step by step, to the same pages and links by key as a new one |
| PageUrls.RelativeUrlRoundTrip | src/spidercheck/models.py:404-413 | splitting a page's relative address gives back its key exactly when the key is one that splitting leaves and its path leads back; a site without a path, relative paths and host-like site paths included |
| PageUrls.ColonIsLost | src/spidercheck/models.py:404-413 | on a site without a path, a stored path that looks like a scheme is read back without it |
| PageUrls.FullUrlIsLocal | src/spidercheck/models.py:415-430 | a page's full address is local to its site whenever the site names a host |
| PageUrls.FullUrlParts | src/spidercheck/models.py:415-430 | split again, a full address has the site's scheme and host, the resolved path and the page's parameters |
| PageUrls.HostlessUrlIsLocal | src/spidercheck/models.py:415-430 | without a host it is local for paths with one leading slash and no dot segments |
| PageUrls.FullUrlsEqual | src/spidercheck/models.py:415-430 | two keys of a site share a full address exactly when their resolved paths do, up to a leading slash, and their parameters are equal |
| PageUrls.AddressesCollide | src/spidercheck/models.py:415-430 | two keys that share their full address |
| Url.RemoveDotsSize | src/spidercheck/models.py:404-413 | resolution never lengthens a path, and shortens an absolute one that has dot segments |
| DotSegments.RemoveDotsWalks | src/spidercheck/models.py:404-413 | removing dot segments from a text is walking its segments with a stack |
| DotSegments.AbsoluteJoin | src/spidercheck/models.py:404-413 | a stored absolute path is resolved by walking its own segments |
| DotSegments.RelativeJoin | src/spidercheck/models.py:404-413 | a relative one by walking them from the directory of the site path |
| DotSegments.SegmentsOf | src/spidercheck/models.py:404-413 | every absolute path is made of segments, so these theorems speak of all of them |
| DotSegments.NamedJoin | src/spidercheck/models.py:404-413 | a stored path that is a complete URL is resolved by itself |
| DotSegments.HostJoin | src/spidercheck/models.py:404-413 | one that names a host only takes the scheme of the site path |
| DotSegments.AbsoluteQueryJoin | src/spidercheck/models.py:404-413 | a query and a fragment after an absolute path are kept |
| DotSegments.QueryJoin | src/spidercheck/models.py:404-413 | alone they keep the path of the base |
| UrlParts.WholeUrl | src/spidercheck/models.py:254-259 | a URL comes apart into the scheme in lower case, host, path, query and fragment it was put together from |
| UrlParts.BareUrl | src/spidercheck/models.py:254-259 | so does one that starts with its path |
| UrlParts.SchemeExactly | src/spidercheck/models.py:207-212 | what stands before the first colon is the scheme exactly when it is a letter followed by letters, figures, plus, minus or point |
| UrlParts.ParamsExactly | src/spidercheck/models.py:254-259 | the path ends at a semicolon in its last segment |
| UrlParts.LowerMeans | src/spidercheck/core.py:42 | helper: lower case changes the 26 capitals and nothing else |
| UrlParts.LocalExactly | src/spidercheck/models.py:207-212 | a URL with scheme and host is local exactly when both are the site's |
| UrlParts.HostLocalExactly | src/spidercheck/models.py:207-212 | one with a host only, exactly when that is |
| UrlParts.SchemeLocalExactly | src/spidercheck/models.py:207-212 | one with a scheme only, exactly when that is |
| UrlParts.PathIsLocal | src/spidercheck/models.py:207-212 | a text with neither is local |
| Addresses.OwnUrlFindsPage | src/spidercheck/models.py:254-262 | adding a page by its own address returns it and creates nothing exactly when its key is one that splitting leaves and its path leads back |
| Addresses.RunKeepsAddresses | src/spidercheck/core.py:194-209 | in every run, every stored key and every site address is one that splitting a URL gives |
| Addresses.OwnUrlInRuns | src/spidercheck/models.py:254-262 | in every run, for every page of a site with a host: exactly when its path leads back; on a site without a path, when it looks like no scheme and no host; on any other, when it has one leading slash and no dot segments, or both it and the site path read as empty |
| Addresses.AddressesDiffer | src/spidercheck/models.py:415-430 | in every run, pages of a site with a host that are found again and have absolute paths have different full addresses |
| Addresses.DottedSeedIsLost | src/spidercheck/models.py:404-413 | adding the seed page of http://h/a/../b by its own address creates another page |
| Addresses.EveryPageIsLocal | src/spidercheck/models.py:196-212 | in every run, every page of a site that names a host has a local full address |
| Calendar.NextMonthMeans | src/spidercheck/fechas.py:183-204 | the month index moves by one, the day is kept or clamped, and the step fails exactly in the last month of year 9999 |
| Calendar.NextMonthDays | src/spidercheck/fechas.py:183-204 | in days: the old month's length less what clamping took off, between the two months' lengths |
| Calendar.NextMonthMonotone | src/spidercheck/fechas.py:183-204 | the step never reverses two dates |
| Calendar.StepsMean | src/spidercheck/fechas.py:183-204 | after k steps the day is the smallest of the original and the lengths of the k months entered |
| Calendar.MonthLengths | src/spidercheck/fechas.py:200-203 | the lengths of the Gregorian months |
| Calendar.DatesThatExist | src/spidercheck/fechas.py:157-161 | a date can be made exactly for the days of the years 1 to 9999 |
| Calendar.NewDateMeans | src/spidercheck/fechas.py:152-162 | the date made of some parts is the one that has them and today's for the rest, if it exists |
| Patterns.MatchFits | src/spidercheck/fechas.py:257-391 | whatever the greedy search captures is a reading of the text by the pattern |
| Patterns.FitsMatch | src/spidercheck/fechas.py:257-391 | if there is a reading, the search finds one |
| DateRoundTrip.DateRoundTrips | src/spidercheck/fechas.py:448-459 | a date printed in any of five forms is read back with its year widened: unchanged exactly when the year is over 100 |
| DateRoundTrip.DateTimeRoundTrips | src/spidercheck/fechas.py:465-477 | the same for four forms with a time, offset or zone: the time comes back as well, exactly when an RFC 822 text has a zone or no seconds |
| DateRoundTrip.DateTimeIsRead | src/spidercheck/fechas.py:465-477 | any two digits for hour, minute and second: read as that time, and refused if it is no time of day |
| DateRoundTrip.SecondsAreCut | src/spidercheck/fechas.py:309-325 | an RFC 822 text without a zone whose seconds are read wrong |
| DateRoundTrip.DateReadsAsMidnight | src/spidercheck/fechas.py:437-445 | a date without a time is read as midnight by the other parser |
| DateRoundTrip.SpanishMonth | src/spidercheck/fechas.py:407-420 | each Spanish month name is in the table under its number |
| DateRoundTrip.EnglishMonth | src/spidercheck/fechas.py:407-420 | so is each English abbreviation |
| DateForms.SpaceIsIgnored | src/spidercheck/fechas.py:451-453 | space around a text makes no difference to either parser; a text of nothing else is blank |
| DateForms.SpacesMean | src/spidercheck/fechas.py:451 | helper: which characters are space |
| DateForms.StripExactly | src/spidercheck/fechas.py:451 | helper: stripping takes off all the space at both ends and nothing else |
| DateForms.MonthNameExactly | src/spidercheck/fechas.py:407-432 | a word is a month exactly when it is one of the names of that month, in any case |
| DateForms.UpperMeans | src/spidercheck/fechas.py:431 | helper: upper case changes the 26 small letters and nothing else |
| DateForms.ClassesMean | src/spidercheck/fechas.py:259-391 | helper: the classes of characters of the patterns |
| DateForms.SeparatedExactly | src/spidercheck/fechas.py:259-266 | day, separators, month in figures or letters, separator, four-digit year: that date, or an unknown month, or a date that does not exist |
| DateForms.ShortYearIsRead | src/spidercheck/fechas.py:378-391 | a year of two digits is read as one of the twenty-first century: right exactly for the years 2000 to 2099 |
| DateForms.FractionIsRead | src/spidercheck/fechas.py:346-361 | day, month, year with dashes, time and a fraction are read without the fraction |
| DateForms.NoDigitIsNoDate | src/spidercheck/fechas.py:459 | a text without a digit, unless blank, is refused |
| Chunks.TextAsFragments | src/spidercheck/seqtools.py:121-140 | while more than the larger size is left the next fragment ends at the first line break between the sizes, else the first space, else the larger size; the rest is the last one |
| Chunks.CutPrefersBreaks | src/spidercheck/seqtools.py:134-138 | each cut is at the first line break between the two sizes, else the first space there, else the larger size |
| Chunks.FragmentsExactly | src/spidercheck/seqtools.py:129-140 | that description of the fragments leaves no choice: it holds of them and of nothing else |
| Chunks.WholeExactly | src/spidercheck/seqtools.py:130-133 | a text is left whole exactly when it is not empty and fits the larger size |
| Chunks.FragmentsReassemble | src/spidercheck/seqtools.py:129-140 | fragments spell the text, none is empty or too long, none but the last too short |
| Chunks.FragmentCount | src/spidercheck/seqtools.py:129-140 | the number of fragments is bounded on both sides |
| Chunks.ProgressExactly | src/spidercheck/seqtools.py:129-140 | every cut of every text makes progress exactly when both sizes are positive |
| Chunks.Batch | src/spidercheck/seqtools.py:98-118 | the batches spell the sequence, all but the last are full and the last is not empty |
| Chunks.BatchProgressExactly | src/spidercheck/seqtools.py:108-118 | every round of every sequence takes an item or is the last exactly when the size is positive |
| Chunks.BatchesReassemble | src/spidercheck/seqtools.py:98-118 | all batches but the last are full, the last is not empty, and their number is the length over the size, rounded up |
| Chunks.BatchesExactly | src/spidercheck/seqtools.py:108-118 | and that leaves no choice |

## Left out

- HTTP requests, robots.txt, HTML parsing and the extraction of links: they enter only as the answer to a check.
- The resolution of links against the page they stand on, and the exclusion of links to the page itself (src/spidercheck/models.py:370-379): part of the answer, as the list of addresses to add.
- Spidercheck.Database.CheckPage: does not write `error_message` and `check_time`, which the original stores and nothing else reads.
- Column lengths, NULL keys, transactions and concurrent requests: steps happen one after the other.
- The query behind the orphan list of `site_expunge_all`: dbraw is not part of this model; the list is any list of existing, distinct pages.
- PageUrls.RelativeUrlRoundTrip: not a relative path under a relative site path, which only a seed without a host has; urllib and RFC 3986 resolve such pairs differently.
- Addresses.OwnUrlFindsPage: not those pairs either.
- Addresses.OwnUrlInRuns: the same, for sites without a host.
- PageUrls.FullUrlIsLocal: sites that name a host only; without one a path with two leading slashes is taken for a host.
- Addresses.EveryPageIsLocal: the same sites.
- The module urllib is not part of this model: splitting strips no white space, resolution follows sections 5.2.2 to 5.2.4 of RFC 3986 and recomposition its section 5.3, for every scheme and for empty hosts; versions of urllib that put two more slashes before a path with two leading slashes are not covered.
- Characters outside ASCII as digits, letters or word characters in dates.
- `text_as_fragments` with sizes below zero, and both loops with sizes for which the original never ends.
- `first`, `count_if`, `split_iter`, `split_list`, `last_hours`, and the results module: each is settled by reading it.
- Templates, rendering views, messages, links between views, the console command, and the search adapter.
- `get_excluded_subpaths`: it refers to a relation that no model defines.

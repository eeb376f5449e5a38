# Wellness app client logic, modelled in Dafny

This project models the small pieces of pure logic inside the client pages of a
mobile-styled wellness web application (a Next.js/React app):

- **Progress journal** (`src/app/progress/page.tsx`). One mood/stress log per
  calendar day. Submitting the form either replaces the first log of today or
  appends a new one, and then sorts the series by `getTime()` of each date. The
  module also covers the seven-entry seed series, the form state (a 0..10
  stress slider in steps of 1, starting at 5, and five moods) and the
  `yyyy-MM-dd` date strings.
- **Favourite quotes** (`src/app/quotes/page.tsx`). `toggleFavorite` flips one
  id in a set. `sortedQuotes` is a stable sort that lists favourites first.
- **Quote of the day** (`src/app/page.tsx`). The day of the year is computed
  from the clock against day 0 of January. The quote shown is
  `quotes[dayOfYear % quotes.length]`, using JavaScript's truncating `%`.
- **Bottom navigation** (`src/components/bottom-nav.tsx`). `"/"` is highlighted
  only on an exact match. The other items are highlighted on a string prefix
  match.
- **AI assistant chat** (`src/app/ai-assistant/page.tsx`). It looks up the
  topic category from the query string and builds the opening message. The
  send cycle has four parts: the blank/loading guard, the optimistic display
  of the user's message, the two messages appended on completion, and the
  apology text used on failure.

Layout, one module per file:

| file | module | what |
|---|---|---|
| `wrappers.dfy` | `Wrappers` | `Option`, used for `undefined`, `null` and `findIndex`'s `-1` |
| `stable_sort.dfy` | `StableSort` | the stable sort by an integer key, shared by the journal and the quotes page |
| `calendar.dfy` | `Calendar` | Gregorian dates and ECMAScript's MakeDay arithmetic |
| `date_format.dfy` | `DateFormat` | the `yyyy-MM-dd` format and its parse |
| `catalog.dfy` | `Catalog` | the static quotes and categories |
| `journal.dfy` | `Journal` | the progress page |
| `quotes.dfy` | `Quotes` | the quotes page |
| `daily_quote.dfy` | `DailyQuote` | the home page's quote of the day |
| `bottom_nav.dfy` | `BottomNav` | the navigation bar |
| `chat.dfy` | `Chat` | the assistant page |

Modelling choices:

- **Journal dates.** A log date is a `(year, month, day)` triple, not its
  string. The string form changes nothing, and the model proves why:
  - `DateFormat.ParseFormat` and `DateFormat.FormatParse` show that the
    `yyyy-MM-dd` format and its parse are inverse on real dates. So the
    string equality in `findIndex` is the same as date equality
    (`DateFormat.FormatInjective`).
  - The comparator `new Date(a).getTime() - new Date(b).getTime()` is modelled
    through ECMAScript's MakeDay. `Calendar.BeforeIffEarlierDay` proves that it
    orders valid dates exactly as year, then month, then day.
- **Both sorts.** Each is the stable insertion sort `StableSort.Sort` with a
  key that has the same sign behaviour as the comparator
  (`Quotes.FavCompareIsKeyOrder`). `Array.prototype.sort` is stable, so a
  stable sort has only one possible result.
- **Inputs.** The clock, "today", message ids and the AI reply are
  parameters. Instants are integer milliseconds on a local time axis that
  starts at 0000-01-01. The Unix epoch is a constant shift of this axis, and
  the shift cancels in the subtraction the home page makes.

- **Years.** A valid date has a year from 100 to 9999. Below 100 the
  program departs from the calendar in two places. `new Date(year, 0, 0)`
  reads a year in 0..99 as 1900 + year, and `DailyQuote.DayOfYear` models
  that shift (`Calendar.ConstructorYear`). date-fns writes year 0 as the era
  year `0001`.

The progress page keeps only local React state. It has no sign-in, no remote
store, no separate create and merge-update actions and no choice between seed
and remote data. It replaces today's log wholesale; because the new log
carries today's date, only stress and mood actually change.

## Model

| member | source | states |
|---|---|---|
| `StableSort.Sort` | src/app/progress/page.tsx:101 | the sorted series is a permutation of its input, of the same length |
| `StableSort.SortIsSorted` | src/app/progress/page.tsx:101 | the sort's result is ordered by key |
| `StableSort.SortIsStable` | src/app/quotes/page.tsx:48 | for every key, the elements with that key appear in their input order, as a stable sort with a comparator that returns 0 on ties keeps them |
| `StableSort.SortOfSorted` | src/app/progress/page.tsx:101 | sorting an already sorted sequence returns it unchanged |
| `StableSort.SortKeepsDistinct` | src/app/progress/page.tsx:101 | if no two inputs share a field value, no two outputs do |
| `Calendar.BeforeIffEarlierDay` | src/app/progress/page.tsx:101 | on valid dates, `getTime()` of `new Date(date)` is smaller exactly when the date is earlier by year, month, day |
| `Calendar.SameDayIffSameDate` | src/app/progress/page.tsx:101 | on valid dates, equal times mean equal dates, so the comparator returns 0 only for the same day |
| `Calendar.DaysBeforeYearStep` | src/app/page.tsx:47 | the MakeDay year offset grows by 366 after a leap year and 365 otherwise |
| `Calendar.OrdinalDayInYear` | src/app/page.tsx:46-48 | the one-based ordinal day of a valid date lies in 1..365, or 1..366 in leap years |
| `DateFormat.FormatDate` | src/app/progress/page.tsx:82 | `format(date, "yyyy-MM-dd")` is ten characters with dashes at positions 4 and 7 |
| `DateFormat.ParseDate` | src/app/progress/page.tsx:101 | `new Date` on the ten-character `YYYY-MM-DD` strings the journal stores: a string is accepted exactly when it has four digits, a dash, two digits, a dash and two digits, with the month in 01..12 and the day in 01..31; the accepted date is the one whose zero-padded fields spell the string |
| `DateFormat.ParseFormat` | src/app/progress/page.tsx:82 | parsing a formatted valid date gives the same date back |
| `DateFormat.FormatParse` | src/app/progress/page.tsx:101 | every string that parses to a valid date is that date's formatted form |
| `DateFormat.FormatInjective` | src/app/progress/page.tsx:88 | two valid dates have equal date strings exactly when they are the same date |
| `Catalog.CatalogShape` | src/lib/data.ts:3-137 | the catalog has 20 quotes with distinct ids and 10 categories with distinct slugs |
| `Journal.ParseMood` | src/app/progress/page.tsx:133-146 | a radio value names a mood exactly when it is one of the five mood names |
| `Journal.MoodNameRoundTrip` | src/app/progress/page.tsx:29 | a mood name and its mood determine each other |
| `Journal.FindIndexOfDate` | src/app/progress/page.tsx:88 | `findIndex` returns the first index whose log has the date, or none when no log has it |
| `Journal.FindIndexOfDateIsFirst` | src/app/progress/page.tsx:88 | the index before which no log has the date, and which has it, is the one found |
| `Journal.Upsert` | src/app/progress/page.tsx:88-98 | after the replace-or-append step, the first log of the new log's day is the new log |
| `Journal.SortByDate` | src/app/progress/page.tsx:101 | the series comes back as a permutation of itself, in date order |
| `Journal.AddLog` | src/app/progress/page.tsx:88-101 | the `setLogs` update of `handleAddLog`: the new series is in date order, and its first log of the new log's day is the new log |
| `Journal.AddLogCreates` | src/app/progress/page.tsx:95-101 | with no log for the day, the series grows by one; its multiset is the old multiset plus the new log |
| `Journal.AddLogReplaces` | src/app/progress/page.tsx:88-101 | with a log for the day, the length stays the same; the first such log, which has the same date, is replaced by the new log, and the multiset is the old multiset minus that log plus the new one |
| `Journal.AddLogSorted` | src/app/progress/page.tsx:101 | the series after logging is in date order |
| `Journal.AddLogKeepsDistinctDates` | src/app/progress/page.tsx:88-101 | if no two logs shared a day before, none do after |
| `Journal.AddLogKeepsValid` | src/app/progress/page.tsx:80-101 | valid logs plus a valid new log give valid logs |
| `Journal.SortKeepsFirstWithDate` | src/app/progress/page.tsx:101 | the date sort keeps which log is the first of each day |
| `Journal.AddLogIdempotent` | src/app/progress/page.tsx:80-101 | logging the same entry twice gives the same series as logging it once |
| `Journal.LogTimeOrder` | src/app/progress/page.tsx:101 | on valid dates, the sort key orders logs by calendar date |
| `Journal.InitialDataWellFormed` | src/app/progress/page.tsx:44-52 | the seed series has seven valid logs, is sorted by date, has one log per day, and every stress is in 0..10 |
| `Journal.SliderValue` | src/app/progress/page.tsx:124-129 | the slider reports a whole stress level in 0..10; any in-range value is reported unchanged |
| `Journal.HandleAddLog` | src/app/progress/page.tsx:80-103 | logging keeps the form values, and the series then holds today's log built from them |
| `Journal.InitialPageInvariant` | src/app/progress/page.tsx:71-73 | the first render (seed series, stress 5, mood neutral) satisfies the page invariant |
| `Journal.FormEditsKeepInvariant` | src/app/progress/page.tsx:124-136 | moving the slider or choosing a mood keeps the page invariant |
| `Journal.HandleAddLogKeepsInvariant` | src/app/progress/page.tsx:80-103 | logging on a valid day keeps the invariant: stress in 0..10, all logs valid, sorted by date, one per day |
| `Journal.ScenarioNewDayBetween` | src/app/progress/page.tsx:95-101 | a log for 2025-01-16 added to logs for the 15th and 17th lands between them |
| `Journal.SortOfThree` | src/app/progress/page.tsx:101 | the date sort moves a log whose day falls between two others into the middle |
| `Journal.ScenarioSameDay` | src/app/progress/page.tsx:91-101 | logging again on 2025-01-15 keeps two logs, and the 15th's stress and mood are overwritten |
| `Quotes.ToggleFavorite` | src/app/quotes/page.tsx:27-34 | after a toggle the id is a favourite exactly when it was not before; every other id keeps its membership |
| `Quotes.ToggleTwice` | src/app/quotes/page.tsx:27-34 | toggling the same id twice restores the set |
| `Quotes.FavCompareIsKeyOrder` | src/app/quotes/page.tsx:43-49 | the comparator is negative, zero or positive exactly when the favourite key (0 for a favourite, 1 otherwise) is smaller, equal or larger |
| `Quotes.SortedQuotes` | src/app/quotes/page.tsx:43-49 | `sortedQuotes` is a permutation of the quotes in which no favourite comes after a non-favourite; `Quotes.SortedQuotesIsPartition` states the order within each group |
| `Quotes.SortedQuotesIsPartition` | src/app/quotes/page.tsx:43-49 | the sorted list is the favourites in list order, followed by the others in list order |
| `Quotes.SortedQuotesSpec` | src/app/quotes/page.tsx:43-49 | the sorted list is a permutation; no non-favourite comes before a favourite; order is kept within favourites and within the others |
| `Quotes.SortedQuotesNoFavourites` | src/app/quotes/page.tsx:43-49 | with no favourites the list is the catalog order |
| `DailyQuote.JsRemainder` | src/app/page.tsx:49 | `%` is NaN for a zero divisor; for a non-negative dividend it is the ordinary remainder; for a negative dividend it lies above minus the divisor's magnitude, is at most 0, and differs from the dividend by a multiple of the divisor, which makes it the truncated remainder |
| `DailyQuote.DayOfYear` | src/app/page.tsx:46-48 | the day count is the floor of the milliseconds since the base, day 0 of January of the year the constructor builds, divided by the length of a day |
| `DailyQuote.SelectQuote` | src/app/page.tsx:49 | a quote is found exactly when the list is non-empty and the remainder is not a negative index (a negative multiple of the length gives `-0`, which reads the first quote); for a non-negative day it is `quotes[day % length]` |
| `DailyQuote.SelectQuotePeriodic` | src/app/page.tsx:49 | days d and d + length show the same quote |
| `DailyQuote.SelectQuoteNextDay` | src/app/page.tsx:49 | the next day shows the next quote, wrapping after the last |
| `DailyQuote.DayOfYearOfDate` | src/app/page.tsx:46-48 | at any instant of a valid date, the computed day of the year is that date's ordinal day, in 1..366 |
| `DailyQuote.DayOfYearAtLeastOne` | src/app/page.tsx:46-48 | outside years 0..99, from midnight on January 1st on, the day of the year is at least 1, because the base is day 0 of January |
| `DailyQuote.EarlyYearBeforeBase` | src/app/page.tsx:46-48 | in a year 0..99 the constructor puts the base in 1900 + year, so every instant of that year gets a negative day count |
| `DailyQuote.EarlyYearQuote` | src/app/page.tsx:45-51 | at midnight on 0050-03-02 the day count is -693899 and `quotes[-693899 % 20]` is `quotes[-19]`, which is undefined |
| `DailyQuote.DailyQuoteOfCatalog` | src/app/page.tsx:45-51 | with the 20-quote catalog, the home page always finds a quote: the one at the ordinal day modulo 20 |
| `BottomNav.ActiveItems` | src/components/bottom-nav.tsx:22-23 | the highlighted items are exactly the bar items whose rule matches the path |
| `BottomNav.HomeActiveIff` | src/components/bottom-nav.tsx:22-23 | Home is highlighted exactly when the path is `"/"` |
| `BottomNav.OtherActiveIff` | src/components/bottom-nav.tsx:22-23 | a non-home item is highlighted exactly when the path starts with its href, so `"/quotesX"` highlights Quotes |
| `BottomNav.RootHighlightsHome` | src/components/bottom-nav.tsx:8-23 | on `"/"` only Home is highlighted |
| `BottomNav.AtMostOneActive` | src/components/bottom-nav.tsx:8-23 | at most one item is highlighted for any path |
| `BottomNav.AssistantHighlightsNothing` | src/components/bottom-nav.tsx:8-23 | paths under `"/ai-assistant"` highlight no item |
| `Chat.TrimStart` | src/app/ai-assistant/page.tsx:58 | drops exactly the leading ECMAScript whitespace; the result is a suffix that is empty or starts with a non-space |
| `Chat.TrimEnd` | src/app/ai-assistant/page.tsx:58 | drops exactly the trailing whitespace; the result is a prefix that is empty or ends with a non-space |
| `Chat.Trim` | src/app/ai-assistant/page.tsx:58 | `input.trim()`; no contract of its own: `Chat.TrimIsSlice` states what it returns |
| `Chat.TrimIsSlice` | src/app/ai-assistant/page.tsx:58 | `trim()` returns a slice of the text with only whitespace before and after it and no whitespace at either of its ends |
| `Chat.BlankIffAllWhitespace` | src/app/ai-assistant/page.tsx:58 | the input trims to empty exactly when every character is whitespace |
| `Chat.FindCategory` | src/app/ai-assistant/page.tsx:25-26 | finds the first category whose slug equals the parameter; finds none for a missing parameter or an unknown slug |
| `Chat.InitialMessage` | src/app/ai-assistant/page.tsx:28-30 | `initialMessage`; no contract of its own: `Chat.FindCategoryOfCatalog` and `Chat.AnxietyOpening` state its value |
| `Chat.FindCategoryOfCatalog` | src/app/ai-assistant/page.tsx:25-30 | every catalog slug finds its own category; a missing or unknown slug gives the general greeting |
| `Chat.AnxietyOpening` | src/app/ai-assistant/page.tsx:28-30 | the `anxiety` slug opens with "I'd like to talk about Anxiety. Can you give me some advice?" |
| `Chat.OptimisticAppend` | src/app/ai-assistant/page.tsx:33-39 | the optimistic reducer keeps the list and puts the new message last |
| `Chat.Prefill` | src/app/ai-assistant/page.tsx:50-54 | the input receives the opening message only when a category was found and there are no messages yet; otherwise nothing changes |
| `Chat.SendMessage` | src/app/ai-assistant/page.tsx:56-68 | the synchronous part of `handleSendMessage`; no contract of its own: `Chat.SendGuard` and `Chat.SendStarts` state its behaviour |
| `Chat.CompleteSend` | src/app/ai-assistant/page.tsx:70-87 | the part of `handleSendMessage` after the call returns or fails; no contract of its own: `Chat.CompleteAppendsPair` and `Chat.SendThenComplete` state its behaviour |
| `Chat.SendGuard` | src/app/ai-assistant/page.tsx:58 | a blank input, or a request in progress, makes sending change nothing |
| `Chat.SendStarts` | src/app/ai-assistant/page.tsx:56-68 | a send past the guard clears the input and sets loading; the shown list grows by exactly the user's message, with the submitted text |
| `Chat.CompleteAppendsPair` | src/app/ai-assistant/page.tsx:70-87 | on completion the messages grow by exactly two, the user's then the assistant's; on failure the assistant's text is the apology; loading ends either way |
| `Chat.SendThenComplete` | src/app/ai-assistant/page.tsx:56-87 | a whole send appends the submitted text and the reply, and leaves the input empty and loading off |
| `Chat.TransitionsKeepInvariant` | src/app/ai-assistant/page.tsx:50-87 | editing, prefilling, sending and completing keep loading in step with the pending send, and keep messages in user/assistant pairs |
| `Chat.InitialChatInvariant` | src/app/ai-assistant/page.tsx:32-41 | the empty chat satisfies the invariant |

## Left out

- Local storage on the quotes page (loading favourites at `src/app/quotes/page.tsx:15-25`, saving them at `:36-40`) is I/O with JSON encoding, and is not modelled.
- The clock and "today" are parameters: `Date.now()`, `new Date()`, and date-fns `format` called on the current time. Time zones and daylight saving are not modelled; everything lies on one local time axis.
- `generateUniqueId` is left out because it uses the clock and `Math.random`. Message ids are parameters.
- The hosted language-model call (`src/ai/flows/ai-chat-assistant.ts`) and the server action's `try/catch` are reduced to an abstract `Reply`. `Replied(text)` includes the server action's own fallback text, and `Failed` is a call that throws at the page.
- React scheduling is not modelled: when effects run, how `useOptimistic` reconciles, and concurrent sends. The model keeps the state transitions only. A send's completion is a separate transition that carries the in-flight user message.
- Rendering is markup and styling and is not modelled: the chart, `CustomDot`, the mood colours, the toast after logging, the scrolling effect, the client-only flags and the category grid.
- `Journal.FindIndexOfDate`: returns None where `findIndex` returns -1.
- `Journal.SliderValue`: the slider component's own range handling is external code. It is modelled as clamping to 0..10 with whole steps.
- `DateFormat.ParseDate`: models only ten-character `YYYY-MM-DD` strings, because those are all the journal stores. The forms `YYYY` and `YYYY-MM`, date-time strings and engine-specific fallback formats, all of which `new Date` also reads, are not modelled. It accepts days 01..31 in every month, and what an engine does with a day past the end of its month is not modelled.
- `DateFormat.FormatDate`: covers the years 100..9999 of a valid date only. date-fns writes year 0 as `0001` and years past 9999 with more digits; neither is modelled.
- `DailyQuote.DayOfYearAtLeastOne`: holds outside years 0..99 only. For those years `DailyQuote.EarlyYearBeforeBase` states the negative day count instead.
- `DailyQuote.SelectQuote`: determinism (equal days pick equal quotes) holds because it is a function, so no separate lemma states it.
- The category detail page is outside this model.

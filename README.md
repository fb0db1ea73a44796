# Meeting time scheduler: a verified model of its core

The scheduler lets a leader create a meeting request. The request has a
date range, working hours, a duration, a step size and a time zone.
Participants open a shared link, say who they are and mark their busy
times. The server turns the request into a lattice of candidate slots. For
each slot it counts how many participants who have responded are free, and
stores the counts as suggested slots. From these it derives a ranked list
of top suggestions and a date/time heatmap. The leader can lock one slot
as the final meeting time.

This project models that core in Dafny:

- `TimeSlots`: the slot lattice (`generate_time_slots`).
- `Availability`: the conflict test and the per-slot counts (`is_participant_available`, `calculate_slot_availability`).
- `Suggestions`: the upsert of suggested slots (`generate_suggested_slots`).
- `Ranking`: the ranking with its threshold and limit (`get_top_suggestions`).
- `Heatmap`: the heatmap grid (`get_heatmap_data`).
- `BusyInput`: parsing the posted busy list (`parse_busy_slots_from_json`).
- `Models`: the derived model properties: availability percentage, heatmap level, `is_active`, response rate, `BusySlot.clean` and the field bounds.
- `LockViews`, `BusyViews`, `ParticipantViews`: the request handlers that change the tables (`lock_slot`, `view_request`, `save_busy_slots`, the bulk participant import, `respond_to_request`).
- `Forms`: the cross-field form checks.

The database is a `Store.Database` object. Its tables are fields: meetings
keyed by id, plus sequences of participants, busy slots and suggested
slots. The handlers are methods that modify only the fields the source
writes. Each handler is proved against a specification function over the
old tables, and the lemmas beside the function state what the source
promises.

Times are whole minutes since an epoch, in UTC. Dates are day ordinals
(`date.toordinal()`), and a time of day is a minute in 0..1439. Time-zone
conversion has no definition here, because the zone database is not part
of the model. The handlers take two functions as parameters instead:

- `Localizer`, for `tz.localize(datetime.combine(d, t))`;
- `LocalView`, for `astimezone(tz)` followed by reading the date and time.

The clock (`timezone.now()`) is a parameter too.

## Model

| member | source | states |
|---|---|---|
| Calendar.Weekday | src/meetings/utils.py:28 | `date.weekday()` lies in 0..6 |
| Calendar.Jan1st2024IsMonday | tests/test_generate_time_slots.py:60 | 1 January 2024 is a Monday (weekday 0) |
| Models.FieldErrors | src/meetings/models.py:41-45 | a duration outside 15..480 and a step outside {15, 30, 60} are field errors; a request with no field error has a positive step and duration |
| Models.RoundHalfEven | src/meetings/models.py:261 | Python's `round` of n/d: within half a unit of the exact quotient, and even on an exact tie |
| Models.RoundHalfEvenIsZero | src/meetings/models.py:261 | the rounded quotient is 0 exactly when n/d is at most one half |
| Models.RoundHalfEvenAtMost | src/meetings/models.py:261 | a quotient at most k rounds to at most k |
| Models.PercentageTenths | src/meetings/models.py:257-261 | the percentage in tenths: 0 with no participants, otherwise 1000·available/total rounded as Python's `round` does (within one half, an exact tie going to the even value), at most 1000 when available ≤ total, and 0 exactly when under 0.05 % |
| Models.AvailabilityPercentage | src/meetings/models.py:257-261 | `availability_percentage` is 0 with no participants; otherwise it is 100·available/total rounded to one decimal (within 0.05, an exact tie going to the even tenth); never negative, at most 100 when available ≤ total, and 0 exactly when the share rounds to 0.0 |
| Models.HeatmapLevel | src/meetings/models.py:264-280 | the level lies in 0..5; it is 0 exactly at 0 %; a level r ≥ 2 means at least 20·(r−1) %; a level r below 5 means under 20·r % |
| Models.HeatmapLevelMonotone | src/meetings/models.py:264-280 | a higher percentage never gets a lower level |
| Models.IsActiveMeaning | src/meetings/models.py:113-119 | a request is active exactly when its status is active and any deadline has not passed |
| Models.ParticipantsOf | src/meetings/views.py:222 | `meeting_request.participants`: exactly the table's participants of that meeting |
| Models.RespondedOf | src/meetings/views.py:223 | the participants of the meeting who have responded |
| Models.RespondedAtMostParticipants | src/meetings/models.py:124-127 | a meeting never has more responders than participants |
| Models.ResponseRate | src/meetings/models.py:122-128 | 0 with no participants, at most 100, otherwise 100·responded/total rounded as Python's `round` does (within half a point, an exact tie going to the even integer, so 1 of 8 gives 12) |
| Models.BusySlotClean | src/meetings/models.py:207-210 | a busy slot is accepted exactly when it ends after it starts |
| Store.SlotsOf | src/meetings/utils.py:192 | `SuggestedSlot.objects.filter(meeting_request=m)`: exactly the rows of meeting m |
| Store.DropMeeting | src/meetings/utils.py:111 | the delete of a meeting's suggested slots keeps exactly the rows of other meetings |
| Store.IndexOfKey | src/meetings/utils.py:126-129 | finds the first row with the (meeting, start, end) key, or reports that none has it |
| Store.LookupMeaning | src/meetings/utils.py:126-129 | the lookup finds a row exactly when some row has the key, and the row it finds has that key |
| Store.LookupAppend | src/meetings/utils.py:126-134 | looking up a key after appending a row finds the earlier row first, otherwise the new row |
| Store.LookupDropMeeting | src/meetings/utils.py:111 | after the delete no key of the meeting is found, and other keys are found as before |
| Store.DropMeetingValid | src/meetings/utils.py:111 | the delete keeps ids and keys unique |
| Store.SlotsOfDropMeeting | src/meetings/utils.py:111 | the delete leaves every other meeting's rows as they were |
| Store.BusyOf | src/meetings/views.py:424 | `participant.busy_slots`: exactly the busy rows of that participant |
| Store.DropBusyOf | src/meetings/views.py:459 | the delete of a participant's busy slots keeps exactly the other rows |
| Store.IndexOfParticipant | src/meetings/views.py:337 | finds a participant by id in any meeting, or reports that none has it |
| Store.IndexOfEmail | src/meetings/views.py:352-359 | finds the participant with that email in that meeting, or reports that none has it |
| Store.IndexOfSlot | src/meetings/views.py:256 | finds the slot with that id in that meeting, or reports that none exists |
| Store.Database.constructor | src/meetings/models.py:14-253 | an empty database satisfies the table invariants |
| TimeSlots.GenerateTimeSlots | src/meetings/utils.py:12-58 | the loop over the date range returns exactly the slot lattice `Lattice` |
| TimeSlots.AppendDaySlots | src/meetings/utils.py:45-54 | the inner loop appends exactly one day's slots |
| TimeSlots.DaySlotsShape | src/meetings/utils.py:45-54 | a day has ⌊(window − duration)/step⌋ + 1 slots, or none when the duration exceeds the window; slot k starts k steps after the working start, lasts the duration and ends within the working hours |
| TimeSlots.DaySlotsStep | tests/test_generate_time_slots.py:135-154 | consecutive slots of a day start exactly one step apart |
| TimeSlots.DaySlotWithin | src/meetings/utils.py:45-46 | every slot of a day lasts the duration and lies inside the working hours |
| TimeSlots.LatticeMembers | src/meetings/utils.py:26-56 | a slot is in the lattice exactly when it belongs to a day of the range that is not a skipped weekend; it lasts the duration and lies inside that day's working hours |
| TimeSlots.LatticeFromCount | src/meetings/utils.py:26-56 | the lattice length is the sum of the per-day counts over the visited days |
| TimeSlots.LatticeCountUniform | src/meetings/utils.py:26-56 | with the same window every day, the lattice has (visited days) × (slots per day) slots |
| TimeSlots.LatticeFromEmpty | tests/test_generate_time_slots.py:100-114 | a duration longer than every day's working window gives no slots |
| TimeSlots.WorkWeekVisitsFiveDays | tests/test_generate_time_slots.py:58-75 | Monday 1 January 2024 through Sunday 7 January, with weekends skipped, visits five days |
| TimeSlots.NineToFiveHourlyEveryHalfHour | src/meetings/utils.py:41-54 | a single 9:00–17:00 day with one-hour slots every 30 minutes has 15 slots, the first at the working start |
| Availability.IsParticipantAvailable | src/meetings/utils.py:61-75 | a participant is available exactly when none of their busy slots overlaps the slot, overlap meaning busy start < slot end and busy end > slot start |
| Availability.TouchingIsNoConflict | tests/test_is_participant_available.py:123-154 | a busy slot ending at the slot's start, or starting at its end, is no conflict; one equal to the slot is |
| Availability.OthersDoNotMatter | src/meetings/utils.py:69-71 | other participants' busy slots never change a participant's availability |
| Availability.FreeIds | src/meetings/utils.py:91-95 | the ids collected are exactly those of the given participants who are available |
| Availability.SlotCounts | src/meetings/utils.py:85-97 | available ≤ total, and total is the number of responders of the meeting |
| Availability.CalculateSlotAvailability | src/meetings/utils.py:78-97 | the total is the number of responders; the ids are exactly the responders of the meeting free for the slot; the count is their number; no responders gives (0, 0, []) |
| SortedSets.MinExists | src/meetings/utils.py:227 | a non-empty set of dates or times has a least element |
| SortedSets.SortedOf | src/meetings/utils.py:227-228 | `sorted(list(s))` of a set is strictly increasing and has exactly the set's elements |
| Ranking.Insert | src/meetings/utils.py:156 | inserting into a ranked list keeps it ranked and adds exactly that row |
| Ranking.Sort | src/meetings/utils.py:156 | `order_by('-available_count', 'start_time')` yields a ranked permutation of the rows |
| Ranking.AtLeast | src/meetings/utils.py:159-162 | the filter keeps exactly the rows whose percentage reaches the threshold |
| Ranking.AtLeastRanked | src/meetings/utils.py:159-162 | filtering a ranked list leaves it ranked |
| Ranking.AtLeastCountPermutation | src/meetings/utils.py:159-162 | the number of rows that pass the filter does not depend on their order |
| Ranking.SliceTo | src/meetings/utils.py:164 | `[:limit]` with Python's negative-limit rule keeps a prefix of the computed length |
| Ranking.TopSuggestionsSound | src/meetings/utils.py:141-164 | every top suggestion is a row of the meeting that reaches the threshold, and the result is ranked |
| Ranking.TopSuggestionsLength | src/meetings/utils.py:164 | the result has `limit` rows, or all the qualifying rows when fewer |
| Ranking.TopSuggestionsBest | src/meetings/utils.py:154-164 | a qualifying row left out ranks after every row returned |
| Ranking.TopSuggestionsComplete | src/meetings/utils.py:154-164 | with a limit no smaller than the number of qualifying rows, every qualifying row is returned |
| Ranking.ExactThreshold | tests/test_get_top_suggestions.py:141-178 | with 49 %, 50 % and 51 % slots and a threshold of 50, exactly the 51 % and 50 % slots come back, in that order |
| Ranking.SortByCount | tests/test_get_top_suggestions.py:141-178 | rows with 49, 50 and 51 available sort by count, highest first |
| Ranking.FilterAtFifty | src/meetings/utils.py:159-162 | at threshold 50 the 49 % row is dropped and the 50 % row is kept |
| Heatmap.DatesOf | src/meetings/utils.py:246-249 | the date set holds exactly the local dates of the entries' starts |
| Heatmap.TimesOf | src/meetings/utils.py:247-250 | the time set holds exactly the local times of the entries' starts |
| Heatmap.Organize | src/meetings/utils.py:238-273 | the loop builds exactly the grid `GridOf`; dates and times come back strictly increasing with exactly the dates and times seen |
| Heatmap.GetHeatmapData | src/meetings/utils.py:167-273 | the heatmap is the grid of the stored rows, or of the lattice with zero cells when the meeting has no rows; dates and times are sorted and complete; the zone is echoed |
| Heatmap.GridAt | src/meetings/utils.py:252-262 | a (date, time) cell exists exactly when some entry starts there, and it holds the last such entry's cell |
| Heatmap.GridDates | src/meetings/utils.py:252-253 | the grid's dates are exactly the listed dates |
| Heatmap.GridKeysListed | src/meetings/utils.py:249-262 | every cell's date and time appear in the listed dates and times |
| Heatmap.FallbackCellsAreZero | src/meetings/utils.py:195-235 | with no stored rows every cell has level, counts and percentage 0 |
| Heatmap.StoredCellsComeFromRows | src/meetings/utils.py:237-262 | with stored rows every cell is the cell of a row of the meeting, and its level is the level of its percentage |
| Suggestions.UpsertLookup | src/meetings/utils.py:126-134 | `update_or_create` sets the counts on the row with the key, keeping its id and lock, or creates an unlocked row with a fresh id; other keys are untouched |
| Suggestions.UpsertValid | src/meetings/utils.py:126-134 | the upsert keeps ids and keys unique and never reuses an id |
| Suggestions.UpsertAllLookup | src/meetings/utils.py:118-136 | after the loop every lattice slot's row carries that slot's counts, a new row is unlocked with a fresh id, and keys outside the lattice are untouched |
| Suggestions.UpsertAllRows | src/meetings/utils.py:118-138 | the returned list has one row per lattice slot, in order, with its key and counts, and each is the stored row |
| Suggestions.UpsertAllValid | src/meetings/utils.py:118-136 | the loop keeps ids and keys unique |
| Suggestions.UpsertAllOtherMeetings | src/meetings/utils.py:118-136 | the loop leaves other meetings' rows unchanged |
| Suggestions.UpsertAllStable | src/meetings/utils.py:126-134 | when every lattice row already has current counts, the loop changes none of the modelled fields of the table or the id counter |
| Suggestions.RecomputeValid | src/meetings/utils.py:100-138 | a recompute keeps ids and keys unique |
| Suggestions.RecomputeOtherMeetings | src/meetings/utils.py:100-138 | a recompute leaves other meetings' rows unchanged |
| Suggestions.RecomputeRows | src/meetings/utils.py:100-138 | the result lists, for each lattice slot in order, a stored row of the meeting with that start, end and current counts |
| Suggestions.ForceStoresExactlyLattice | src/meetings/utils.py:110-111 | after a forced recompute the meeting's stored rows are exactly the returned lattice rows |
| Suggestions.RecomputeKeepsRows | src/meetings/utils.py:126-134 | without force every earlier row keeps its id and lock flag, and rows off the lattice stay as they were |
| Suggestions.RecomputeIdempotent | src/meetings/utils.py:100-138 | a second recompute without force, on unchanged participants and busy slots, changes none of the modelled fields of the table or the id counter |
| Suggestions.ForcedRecomputeIdempotent | src/meetings/utils.py:100-138 | a second forced recompute, on unchanged participants and busy slots, stores the same rows for the meeting as the first (same slots in the same order, same counts, no lock; only the ids are new), and other meetings' rows stay as they were |
| Suggestions.UpdateOrCreate | src/meetings/utils.py:126-134 | the method leaves the table, id counter and row that `Upsert` describes |
| Suggestions.UpsertSlot | src/meetings/utils.py:118-136 | one iteration: the counts of the slot are computed and upserted under its key |
| Suggestions.UpsertSlots | src/meetings/utils.py:118-138 | the loop leaves the table and returns the rows that `UpsertAll` describes |
| Suggestions.GenerateSuggestedSlots | src/meetings/utils.py:100-138 | the method leaves the table `Recompute` describes, with force or without, and keeps it valid |
| BusyInput.ParseBusyMeaning | src/meetings/utils.py:300-322 | the parse succeeds exactly when no item is a non-object or has a present but unparsable time; it then returns the kept items' intervals in order |
| BusyInput.AwareTimesIgnoreZone | src/meetings/utils.py:313-316 | times that carry their own offset give the same intervals whatever the participant's zone |
| BusyInput.ParseErrSticks | src/meetings/utils.py:300-310 | once a prefix raises, the whole list raises the same error |
| BusyInput.ParseBusySlotsFromJson | src/meetings/utils.py:290-324 | the loop returns exactly `ParseBusy` of the items |
| PyStrings.StripLeft | src/meetings/views.py:124 | strips a whitespace prefix, whitespace being every character `str.isspace()` accepts (ASCII and Unicode): the result is a suffix starting with non-space, and everything removed is space |
| PyStrings.StripRight | src/meetings/views.py:124 | strips a whitespace suffix: the result is a prefix ending with non-space, and everything removed is space |
| PyStrings.StripPiece | src/meetings/views.py:124 | `str.strip()` returns a contiguous piece of the string with only whitespace around it |
| PyStrings.StripIdempotent | src/meetings/views.py:127 | a stripped string starts and ends with non-space, and stripping it again changes nothing |
| PyStrings.Split | src/meetings/views.py:123 | `str.split(sep)` returns at least one piece |
| PyStrings.SplitJoin | src/meetings/views.py:127 | split gives one more piece than there are separators, no piece contains the separator, and joining them back gives the string |
| PyStrings.SplitNoSeparator | src/meetings/views.py:127-132 | a string without the separator splits into itself alone |
| LockViews.DeleteSiblings | src/meetings/views.py:259 | the delete keeps exactly the chosen slot and the rows of other meetings |
| LockViews.DeleteSiblingsOther | src/meetings/views.py:259 | the delete leaves other meetings' rows unchanged |
| LockViews.DeleteSiblingsOwn | src/meetings/views.py:259 | after the delete the meeting's only row is the chosen slot |
| LockViews.DeleteSiblingsValid | src/meetings/views.py:259 | the delete keeps ids and keys unique |
| LockViews.LockedTableMeeting | src/meetings/views.py:259-263 | after a lock the meeting's only row is the chosen slot, now locked |
| LockViews.LockedTableOthers | src/meetings/views.py:259-263 | a lock leaves other meetings' rows unchanged |
| LockViews.LockedTableValid | src/meetings/views.py:259-263 | a lock keeps ids and keys unique |
| LockViews.LockSlot | src/meetings/views.py:253-270 | the lock succeeds exactly when the request exists and owns the slot, and otherwise changes nothing (404); on success the other rows of the request are deleted, the slot is locked and the request's status becomes locked |
| LockViews.LockedOf | src/meetings/views.py:233-236 | the filter on `is_locked` keeps exactly the locked rows |
| LockViews.LockThenViewShowsLockedSlot | src/meetings/views.py:227-236 | after a lock the request view lists exactly the locked slot |
| LockViews.ViewRequest | src/meetings/views.py:217-250 | 404 exactly when the request is missing; a locked request's suggestions are left untouched, any other is recomputed with force; the page lists the participants, responders, top 10 suggestions (or the locked slot) and the heatmap in the default zone, with its grid and its sorted, duplicate-free date and time lists |
| BusyViews.BusyOfDrop | src/meetings/views.py:459 | after the delete the participant has no busy rows, and every other participant keeps theirs |
| BusyViews.ReplaceBusy | src/meetings/views.py:458-469 | after the delete and the creates, the participant's busy rows are exactly the new intervals, and every other participant keeps theirs |
| BusyViews.MarkRespondedValid | src/meetings/views.py:472-474 | marking a participant as responded keeps the participant table valid |
| Suggestions.ForceRecomputeUnlocks | src/meetings/utils.py:110-134 | after a forced recompute no row of the meeting is locked |
| BusyViews.NothingLockedNothingShown | src/meetings/views.py:232-236 | a locked request with no locked row shows no suggestion |
| BusyViews.LockedSlotLostOnResubmit | src/meetings/views.py:477 | after a lock the view shows the locked slot; after the forced recompute of `save_busy_slots` it shows none |
| BusyViews.MalformedBodyLosesBusySlots | src/meetings/views.py:459-462 | an item with an unparsable time is refused, yet the participant's earlier busy rows are already gone |
| BusyViews.CreateBusySlots | src/meetings/views.py:464-469 | the loop appends one busy row per parsed interval, in order |
| BusyViews.SaveBusySlotsAsWritten | src/meetings/views.py:443-487 | 404 for a missing request, 400 without a session participant, 404 for an unknown participant; on a refused list the busy rows are deleted anyway; on success the busy rows are replaced, the participant is marked responded and the request is recomputed with force, whether or not it is locked |
| BusyViews.SaveBusySlots | src/meetings/views.py:443-487 | the same outcomes, but an error changes nothing, and a locked request's suggestions are left untouched |
| ParticipantViews.EmailOrNone | src/meetings/views.py:137 | `email or None`: the empty string becomes no email, any other string is kept |
| ParticipantViews.StripAll | src/meetings/views.py:127 | strips every piece of a split line |
| ParticipantViews.ParseBulkLineByCommas | src/meetings/views.py:123-134 | a blank line is skipped; with no comma the stripped line is the email and the name is empty; with one comma the stripped halves are the name and the email (an empty email becomes none); with more commas the line is skipped |
| ParticipantViews.ReadLines | src/meetings/views.py:123-134 | each line of the text is read by `ParseBulkLine`, in order |
| ParticipantViews.NoBreakSpaceStripped | src/meetings/views.py:124-127 | a no-break space after the comma is stripped from the email: "Al,<U+00A0>a@x" gives name "Al" and email "a@x" |
| ParticipantViews.IdeographicSpaceLineBlank | src/meetings/views.py:124-126 | a line holding only an ideographic space (U+3000) is blank and skipped |
| ParticipantViews.AppendParticipantValid | src/meetings/models.py:165 | a new row with a fresh id and an email unused in its meeting keeps the table valid |
| ParticipantViews.EmailOwners | src/meetings/models.py:165 | in a valid table the email lookup finds the one row of that meeting with that email |
| ParticipantViews.UpdateParticipantValid | src/meetings/models.py:165 | an update that keeps id and meeting and takes no email of another row keeps the table valid |
| ParticipantViews.CreateParticipant | src/meetings/views.py:147-151 | `Participant.objects.create` appends one row with the next id |
| ParticipantViews.GetOrCreateParticipant | src/meetings/views.py:140-144 | `get_or_create` by (meeting, email) returns the existing row unchanged when there is one, and otherwise appends one row with the defaults |
| ParticipantViews.AddLineAppends | src/meetings/views.py:139-152 | one line adds at most one row, only at the end, and only when it is counted |
| ParticipantViews.BulkAddAppends | src/meetings/views.py:123-152 | the import only appends, adds at most one row per counted line, and counts at most one per line |
| ParticipantViews.BulkAddCountsEntries | src/meetings/views.py:123-154 | the reported count is exactly the number of entry lines, including those whose email already had a participant; blank lines and lines with more than one comma are not counted |
| ParticipantViews.LineWithoutEmailCreates | src/meetings/views.py:147-152 | a line without an email always appends a new participant named as given, or "Anonymous" when the name is empty, and is counted |
| ParticipantViews.LineWithKnownEmailReuses | src/meetings/views.py:139-144 | a line whose email already has a participant in the meeting is counted and adds no row |
| ParticipantViews.BulkAddEmails | src/meetings/views.py:139-144 | after the import every email listed has a participant of the meeting |
| ParticipantViews.BulkAddValid | src/meetings/views.py:123-152 | the import keeps the participant table valid, with emails unique per meeting |
| ParticipantViews.AddOneLine | src/meetings/views.py:137-152 | one iteration leaves the table, id counter and count that `Extend` describes |
| ParticipantViews.AddText | src/meetings/views.py:122-123 | the text is split on newlines and the lines are read and imported as `BulkAdd` describes |
| ParticipantViews.AddLines | src/meetings/views.py:123-152 | the loop leaves the table, counter and count that `BulkAdd` describes |
| ParticipantViews.AddBulkParticipants | src/meetings/views.py:118-155 | 404 exactly when the request is missing on entry, with nothing changed; otherwise the lines of the text are imported and counted as `BulkAdd` describes |
| ParticipantViews.RespondValid | src/meetings/views.py:345-385 | a successful response keeps the participant table valid |
| ParticipantViews.RespondOutcome | src/meetings/views.py:345-385 | the only error is a known participant taking an email another row of its meeting has, and such a clash always is an error; a known participant is the row updated and its id is returned; otherwise the row found or created belongs to the request; on success one row carries the returned id, the submitted zone and name (or the anonymous name), and the email when one was given; every other row is unchanged; a row is appended, with the next id, only when no existing row is the one answered, so a known participant or an email already in the request never adds a row |
| ParticipantViews.RespondTwiceSameEmail | src/meetings/views.py:351-364 | two responses with the same email and no known participant create one participant, not two |
| ParticipantViews.RespondToRequest | src/meetings/views.py:317-388 | 404 for a missing request, 403 for a wrong token, the closed page for an inactive request, each with nothing changed; otherwise the table becomes the one `Respond` describes and the participant's id is returned |
| Forms.CleanRequestForm | src/meetings/forms.py:126-162 | the form passes exactly when every check passes; each message is raised exactly when its check fails and every earlier check passes |
| Forms.SameDayRangeRefused | src/meetings/forms.py:145-147 | a range that starts and ends on the same day is always refused |
| Forms.NinetyDaysIsTheLimit | src/meetings/forms.py:149-151 | from a start no earlier than today, a range of 90 days passes and one of 91 days is refused as too long |
| Forms.AcceptedRangeBounds | src/meetings/forms.py:137-160 | an accepted complete form covers 2 to 91 calendar days, none in the past, with a non-empty working window |
| Forms.FillingADeadlineNeverHelps | src/meetings/forms.py:153-156 | giving a deadline never turns a refused form into an accepted one |
| Forms.CleanBusySlotForm | src/meetings/forms.py:238-247 | the busy-slot form refuses exactly two given times where the end is not after the start |
| Forms.BusySlotFormAgreesWithModel | src/meetings/forms.py:243-245 | on two given times the form refuses exactly what `BusySlot.clean` refuses |

## Left out

- Primary keys are UUIDs in the source. Here they are natural numbers drawn from a counter (`Database.nextId`), so new ids are fresh by construction.
- Time zones, the zone database and the clock are not part of this model. They are the `Localizer` and `LocalView` parameters and the `now`/`today` arguments, so daylight-saving gaps and folds are whatever those functions say.
- Seconds and sub-minute precision are left out; every instant is a whole minute.
- Auto-set timestamps (`SuggestedSlot.calculated_at`, `created_at`, `updated_at`) are not modelled. Every `update_or_create` refreshes `calculated_at`, and every participant save refreshes `updated_at`, so "changes nothing" in the recompute lemmas means none of the modelled fields. `responded_at` is modelled.
- JSON decoding of the request body (`json.loads`, `data.get('busy_slots', [])`) is left out. The body arrives already decoded, as an optional list of items; `None` stands for a body that cannot be decoded, which the handler answers with 400. A `busy_slots` value that is not a list is not modelled.
- ISO datetime parsing (`fromisoformat`, the `Z` replacement) is left out. Each time field arrives already classified as absent, naive, offset-carrying or malformed.
- Models.AvailabilityPercentage: the source rounds a binary float with `round(x, 1)`. The model rounds the exact quotient half-to-even to tenths, so it can differ from the float result on inputs within floating-point error of a tie.
- Models.ResponseRate: likewise computed on the exact quotient rather than the float.
- Heatmap.GetHeatmapData: dates and times are day ordinals and minutes, not the `%Y-%m-%d` and `%H:%M` strings. Ordering them as numbers agrees with ordering the strings for four-digit years. The cells' `start_utc`/`end_utc` isoformat strings are kept as instants.
- LockViews.ViewRequest: the page is not rendered. Only its content (meeting, participants, responders, suggestions, heatmap) is modelled, and the `not_responded` list is left out because it is the complement of the responders.
- The GET branches of the handlers (prefilled forms, rendering), flash messages and redirects are left out; each handler returns its outcome as a result value.
- Session writes in `respond_to_request` and `select_busy_times` are left out. The participant known from the URL or session, and the session participant of `save_busy_slots`, are parameters.
- The `add_participant` action of the wizard's second step (a plain `ParticipantForm` save) is left out. It is an ordinary create whose email uniqueness `AppendParticipantValid` covers.
- Field-level form validation (types, required fields, email syntax, time-zone choices) is left out. A field refused by it reaches `clean` as `None`, and the model takes it that way.
- `MeetingRequest.save`'s token generation (`secrets.token_urlsafe`) is randomness and is left out; tokens are strings in the meeting record.
- ParticipantViews.RespondToRequest: a database `IntegrityError` from the unique (meeting, email) constraint is modelled as the `Conflict` error, with nothing changed, rather than as an unhandled server error.
- BusyViews.SaveBusySlotsAsWritten: database transaction settings are not part of this model; the handler is taken to run without a transaction, as its code opens none. A per-request transaction would change nothing here, because the handler catches the parse error and returns its 400 normally.

## Findings

| source | as written | input that shows it | evidently intended | confidence | as-written member | corrected member |
|---|---|---|---|---|---|---|
| src/meetings/views.py:477 | `save_busy_slots` recomputes with `force_recalculate=True` even when the request is locked. The forced delete removes the locked slot, and the recomputed rows are unlocked. | Lock a slot with `lock_slot`; then any participant posts busy slots; `view_request` then shows no locked slot. | Like `view_request` (lines 227-228), skip the recompute for a locked request, so the locked slot survives. | high; not executed | BusyViews.SaveBusySlotsAsWritten, BusyViews.LockedSlotLostOnResubmit | BusyViews.SaveBusySlots |
| src/meetings/views.py:459-462 | The participant's busy slots are deleted before the posted list is parsed. A list that fails to parse is answered with 400, but the deletion has already happened. | A participant with saved busy slots posts `[{"start": "2024-01-01T09:00", "end": "not-a-date"}]`. | Parse first and change nothing on error, so a refused save keeps the earlier busy slots. | high (the 400 is a normal return, so even a per-request transaction would commit the deletion); not executed | BusyViews.SaveBusySlotsAsWritten, BusyViews.MalformedBodyLosesBusySlots | BusyViews.SaveBusySlots |

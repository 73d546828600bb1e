# Interview scheduler backend, modelled in Dafny

This project models the core of an interview-scheduling backend. Candidate students are stored in a database, invited by mail with a one-time token, and book an interview slot through that token.

The model keeps the three tables the handlers work on: Students, InterviewSlots and Interviews. They form one value (`Tables.Db`), and every SQL statement the handlers issue becomes a pure function on that value (`Tables`). A `Database.Store` class holds the tables as map fields and has one method per statement. Each handler is then modelled twice:
- as a function `…Effect(db, …)` giving the answer and the new database;
- as a method on the store, proved to do exactly what that function says.

Lemmas state what the handlers promise, mostly as "exactly when" statements, frame conditions ("nothing else changes"), and preservation of the database invariant `Tables.Consistent`. That invariant says:
- booked flags agree with the booker;
- a slot held by an interview is booked by that interview's student;
- at most one interview holds a slot;
- every interview's student exists;
- no token is held twice.

Modules, by source file:

- `Tables`, `Database`: the SQL statements of all handlers, as data.
- `Availability`: the slot-availability rules of `controllers/slotController.js`.
- `SlotAdmin`: slot creation, deletion, listing and cancellation in `controllers/slotController.js`.
- `SlotBooking`: `bookSlot` in `controllers/slotController.js`.
- `InterviewSlots`: `models/InterviewSlot.js`.
- `StudentController`, `StudentInvites`, `ResumeDownloads`: `controllers/studentController.js`.
- `ExcelService`: `services/excelService.js`.
- `EmailService`: `services/emailService.js`.
- `TokenService`: `services/tokenService.js`.
- `InterviewController`: `controllers/interviewController.js`.
- `Validation`: `middleware/validation.js`.
- `Server`: the upload filter, stored file names, SPA fallback and error handler of `server.js`.
- `JsText`, `Paths`, `Ordering`, `Wrappers`: JavaScript string and `path` semantics, SQL row order, `Option`.

Modelling choices:
- Times are integer minutes, and the calendar day of a time is `t / 1440`.
- A request value that may be a number, a text or missing is a `JsValue`. JavaScript truthiness and `parseInt` are modelled on it.
- SQL returns rows in an unspecified order. "The first row" (`recordset[0]`) is modelled as the row with the least id, and `ORDER BY` ties are broken by id. A full recordset read without `ORDER BY` is walked in ascending id too. This fixes which student the k-th call to `Math.random` belongs to in `sendBulkInvitations`, and which of two resumes with the same clean name is renamed with `_1` in `downloadBulkResumes`.
- The database clock, `Date.now`, `Math.random`, `crypto.randomBytes`, file existence and mail delivery are parameters.

Observations about the source that the proofs make explicit:
- The Joi schemas of `middleware/validation.js` are never attached to a route. They are modelled as predicates, and `Validation.PhoneRulesDisagree` shows that their phone rule disagrees with the spreadsheet import's in both directions.
- A refusal by the upload filter is a plain `Error`, not a `MulterError`, so the error handler answers it with 500 rather than 400 (`Server.RefusedUploadIsServerError`).
- The SPA fallback's prefix test is textual: `/apiary` gets the API's 404 JSON (`Server.PrefixIsTextual`).
- In the spreadsheet name rule, the class `[a-zA-Z\s'-\.]` contains the range from `'` to `.`, so `(`, `)`, `*`, `+` and `,` are accepted (`ExcelService.NameClassAdmitsPunctuation`).
- Three availability rules are used. The slot listing grants 30 minutes of grace on the current day, the booking re-check grants 15 minutes, and the model layer's `getAvailableSlots` grants none.
- The conditional resume update always finds the row its gates have just accepted. Its 410 for "no row affected" can therefore only happen when another write comes in between (`StudentController.ResumeUpdatedIff`).

## Model

| member | source | states |
|---|---|---|
| Database.Store.InsertStudent | interview-scheduler-backend/controllers/studentController.js:33-35 | The student INSERT adds one row under the next identity and returns that identity (SCOPE_IDENTITY). It changes nothing else. |
| Database.Store.SetResumeByToken | interview-scheduler-backend/controllers/studentController.js:208-216 | The conditional resume UPDATE writes exactly the rows the sub-query selects and reports whether it affected any. |
| Database.Store.DeleteStudent | interview-scheduler-backend/controllers/studentController.js:684-686 | The student DELETE removes the row if it exists and reports whether it did. |
| Database.Store.DeleteStudentsBetween | interview-scheduler-backend/controllers/studentController.js:760-767 | The range DELETE removes exactly the students in range that have no interview and returns their number. |
| Database.Store.InsertSlot | interview-scheduler-backend/controllers/slotController.js:28-31 | The slot INSERT adds one free slot under the next identity. |
| Database.Store.ClaimSlot | interview-scheduler-backend/controllers/slotController.js:430-434 | The compare-and-set UPDATE books the slot only when IsBooked = 0, and reports whether it did. |
| Database.Store.MarkBooked | interview-scheduler-backend/models/InterviewSlot.js:38-42 | The unguarded UPDATE sets IsBooked and the student on the slot with that id, whatever its state. |
| Database.Store.FreeSlot | interview-scheduler-backend/controllers/slotController.js:771-775 | The freeing UPDATE clears IsBooked and BookedByStudentId of that slot. |
| Database.Store.DeleteSlotIfFree | interview-scheduler-backend/controllers/slotController.js:611 | The DELETE removes the slot only when it is not booked, and reports whether it did. |
| Database.Store.InsertInterview | interview-scheduler-backend/services/emailService.js:336-339 | The interview INSERT adds an Invited row with no slot, holding the token, under the next identity. |
| Database.Store.ScheduleByToken | interview-scheduler-backend/controllers/slotController.js:455-464 | The UPDATE schedules the unspent interview holding the token, and reports whether any row was affected. |
| Database.Store.CancelInterview | interview-scheduler-backend/controllers/slotController.js:782-789 | The UPDATE cancels that interview, clears its slot and sets its notes. |
| Database.Store.SetStatus | interview-scheduler-backend/controllers/interviewController.js:74-77 | The UPDATE sets the Status of the interview with that id. |
| Database.Store.DeleteInterview | interview-scheduler-backend/controllers/interviewController.js:92-94 | The DELETE removes the interview with that id. |
| Database.Store.ClearToken | interview-scheduler-backend/services/tokenService.js:37 | The UPDATE sets InvitationToken to NULL on every row holding the token. |
| Tables.StatusOf | interview-scheduler-backend/controllers/interviewController.js:68 | A text names a status exactly when it is that status's name. |
| Tables.IdListReads | interview-scheduler-backend/controllers/studentController.js:359-361 | An id list is accepted exactly when every entry reads as a 32-bit integer with parseInt. The accepted list is exactly the set of those integers. |
| Tables.IdListSize | interview-scheduler-backend/controllers/studentController.js:359-367 | The IN list names at most as many ids as the request. |
| Tables.First | interview-scheduler-backend/controllers/studentController.js:96 | The first row of a result is its least id, and it exists exactly when the result is non-empty. |
| Tables.NormalEmailIdempotent | interview-scheduler-backend/controllers/studentController.js:20-30 | An address stored in normal form is found again when normalised. |
| Ordering.SortBy | interview-scheduler-backend/models/InterviewSlot.js:7 | ORDER BY lists each id once, and exactly the given ids, in ascending key order with ties broken by id. |
| Paths.LastPartShape | interview-scheduler-backend/controllers/studentController.js:502-505 | The last part has no "/", ends the text, and is preceded by a "/" unless it is the whole text. |
| Paths.StripTrailingSlashesShape | interview-scheduler-backend/server.js:46-47 | Trailing slashes are removed, and nothing else. |
| Paths.BaseNameNoSlash | interview-scheduler-backend/server.js:47 | A base name never contains "/". |
| Paths.LastDotShape | interview-scheduler-backend/server.js:46 | The last dot is found, and no dot follows it. |
| Paths.ExtNameShape | interview-scheduler-backend/server.js:46 | An extension is empty or is a proper suffix of the base name that starts with its only dot. |
| Paths.StemThenExtension | interview-scheduler-backend/server.js:46-47 | The stem followed by the extension is the base name, and there is no extension without a stem. |
| Paths.ExtensionOfPlainName | interview-scheduler-backend/server.js:46-47 | For "stem.ext" the extension is ".ext" and the stem is "stem". |
| JsText.TrimEmptyIffAllSpace | interview-scheduler-backend/services/excelService.js:119 | trim() gives the empty string exactly when the text is all whitespace. |
| JsText.LowerIdempotent | interview-scheduler-backend/services/excelService.js:133 | Lower-casing twice equals lower-casing once. |
| JsText.TrimStart | interview-scheduler-backend/controllers/studentController.js:299 | The leading whitespace run is removed: what remains is a suffix that does not start with whitespace, and what was dropped is all whitespace. |
| JsText.TrimEnd | interview-scheduler-backend/controllers/studentController.js:299 | The trailing whitespace run is removed: what remains is a prefix that does not end with whitespace, and what was dropped is all whitespace. |
| JsText.Trim | interview-scheduler-backend/controllers/studentController.js:29-31 | The trimmed text neither starts nor ends with whitespace, and is never longer. |
| JsText.ToLower | interview-scheduler-backend/controllers/studentController.js:21 | Lower-casing keeps the length and maps each character on its own (ASCII letters only). |
| JsText.NatToStringValue | interview-scheduler-backend/server.js:45 | The decimal text of a number, as a template literal prints it, reads back as that number. |
| Availability.GraceMonotone | interview-scheduler-backend/controllers/slotController.js:229-236 | A slot offered with some grace is offered with any wider grace. |
| Availability.BookableIsListed | interview-scheduler-backend/controllers/slotController.js:400-407 | Every slot the booking re-check accepts (15-minute grace) is also in the listing (30-minute grace). |
| Availability.UpcomingIsBookable | interview-scheduler-backend/controllers/slotController.js:400-407 | A free slot that starts after now passes both the booking re-check and the listing rule. |
| Availability.DayMonotone | interview-scheduler-backend/controllers/slotController.js:231 | A later time never falls on an earlier calendar day, so the date comparison agrees with the time order. |
| Availability.EarlierDayNeverOffered | interview-scheduler-backend/controllers/slotController.js:229-236 | A slot on a day before today is never offered, whatever the grace. |
| Availability.SameDayRule | interview-scheduler-backend/controllers/slotController.js:234-235 | On today's date a slot is offered exactly when it started at most the grace ago. |
| Availability.LaterDayAlwaysOffered | interview-scheduler-backend/controllers/slotController.js:231 | A slot on a later day is always offered, however far ahead it lies. |
| Availability.ListedButNotBookable | interview-scheduler-backend/controllers/slotController.js:400-407 | The two graces differ: a free slot that started 20 minutes ago today is listed but can no longer be booked, and the model-layer rule rejects it too. |
| Availability.GraceStopsAtMidnight | interview-scheduler-backend/controllers/slotController.js:229-236 | The grace never reaches back past midnight: a slot from ten minutes before midnight is gone five minutes after it. |
| SlotAdmin.AvailableListing | interview-scheduler-backend/controllers/slotController.js:227-237 | The listing holds exactly the free slots that pass the 30-minute rule, each once, in ascending start time. |
| SlotAdmin.ListingCoversBookable | interview-scheduler-backend/controllers/slotController.js:227-237 | Every slot a student could book now is listed, and no booked slot is. |
| SlotAdmin.CreateSlot | interview-scheduler-backend/controllers/slotController.js:5-46 | The handler's outcome and new store are those of the specification `CreateSlotEffect`: 400 for a missing time or interviewer, 400 for a time already taken, otherwise one insert. |
| SlotAdmin.CreateSlotWrites | interview-scheduler-backend/controllers/slotController.js:24-32 | A created slot has a fresh id, the requested time, and is free. No other row changes, and a refused request changes nothing. |
| SlotAdmin.CreateSlotKeepsTimesUnique | interview-scheduler-backend/controllers/slotController.js:15-22 | The duplicate check keeps slot start times pairwise distinct. |
| SlotAdmin.CreateSlotDuplicateRefused | interview-scheduler-backend/controllers/slotController.js:15-22 | A request for a time some slot already has is refused with 400 and writes nothing. |
| SlotAdmin.CreateSlotKeepsConsistent | interview-scheduler-backend/controllers/slotController.js:24-32 | Creating a slot keeps the database invariant `Consistent`. |
| SlotAdmin.CreateBulkSlots | interview-scheduler-backend/controllers/slotController.js:50-184 | The loop over the items ends in the state and outcome of the specification `CreateBulkSlotsEffect`. |
| SlotAdmin.CreateFromCounts | interview-scheduler-backend/controllers/slotController.js:89-153 | Every item is counted exactly once, as successful, failed or duplicate. Each uncreated item leaves exactly one error entry. |
| SlotAdmin.CreateItemWrites | interview-scheduler-backend/controllers/slotController.js:93-141 | One item adds at most one new slot: free, in the future, at a time no slot has. Nothing else changes. |
| SlotAdmin.CreateFromWrites | interview-scheduler-backend/controllers/slotController.js:89-153 | The whole loop keeps slot times distinct, keeps every existing slot as it was, and adds only free slots in the future. |
| SlotAdmin.BulkCreateSummary | interview-scheduler-backend/controllers/slotController.js:163-174 | A completed run has successful + failed + duplicates equal to the number of items. Its status is 200 exactly when all items were created and 400 exactly when none was (207 otherwise). |
| SlotAdmin.BulkCreateRejectsShape | interview-scheduler-backend/controllers/slotController.js:57-75 | A missing, non-array, empty or over-500 `slots` value is refused with 400 and writes nothing. |
| SlotAdmin.DeleteSlot | interview-scheduler-backend/controllers/slotController.js:523-654 | The handler's outcome and new store are those of the specification `DeleteSlotEffect`. |
| SlotAdmin.DeleteSlotIff | interview-scheduler-backend/controllers/slotController.js:528-623 | A slot is deleted exactly when its id is a positive 32-bit integer, it exists, it is not booked by flag or by student, and no interview refers to it. The delete removes only that slot, and every refusal writes nothing. |
| SlotAdmin.DeleteSlotRejectsBadId | interview-scheduler-backend/controllers/slotController.js:528-532 | An id that does not parse or is not positive is refused with 400. |
| SlotAdmin.DeleteFreeSlotKeepsConsistent | interview-scheduler-backend/controllers/slotController.js:609-611 | The conditional delete (`IsBooked = 0`) keeps the database consistent. |
| SlotAdmin.DeleteSlotKeepsConsistent | interview-scheduler-backend/controllers/slotController.js:523-635 | Every outcome of the single-slot delete keeps the database consistent. |
| SlotAdmin.DeleteBulkSlots | interview-scheduler-backend/controllers/slotController.js:658-733 | The loop over the ids ends in the state and outcome of the specification `DeleteBulkSlotsEffect`. |
| SlotAdmin.DeleteFromWrites | interview-scheduler-backend/controllers/slotController.js:677-720 | Every id is counted once, and each undeleted id leaves an error. Only free slots are removed, every booked slot stays as it was, and the other tables are untouched. |
| SlotAdmin.DeleteFromKeepsConsistent | interview-scheduler-backend/controllers/slotController.js:677-720 | The bulk delete loop keeps the database consistent. |
| SlotAdmin.BulkDeleteSummary | interview-scheduler-backend/controllers/slotController.js:662-727 | After the bulk delete, successful + failed + booked equals the number of ids, booked slots survive unchanged, and the database stays consistent. An empty or non-array list is refused with 400. |
| SlotAdmin.FreeAndCancelWrites | interview-scheduler-backend/controllers/slotController.js:768-790 | Freeing a slot clears its flag and booker, and cancels exactly the interview that holds it, with the reason as notes. Nothing else changes. |
| SlotAdmin.CancelBooking | interview-scheduler-backend/controllers/slotController.js:736-811 | The handler's outcome and new store are those of the specification `CancelBookingEffect`. |
| SlotAdmin.CancelWrites | interview-scheduler-backend/controllers/slotController.js:751-800 | Only a booked slot can be cancelled (404 otherwise, nothing written). A cancellation frees the slot and turns its interview into a cancelled one without a slot, noting the reason or the default text. Token and token expiry stay. |
| SlotAdmin.CancelKeepsConsistent | interview-scheduler-backend/controllers/slotController.js:768-792 | A cancellation keeps the database consistent. |
| SlotAdmin.FreeAndCancelKeepsConsistent | interview-scheduler-backend/controllers/slotController.js:768-790 | The transaction's two writes together keep the database consistent. |
| SlotAdmin.CancelKeepsTokens | interview-scheduler-backend/controllers/slotController.js:783-789 | A cancellation leaves the set of interviews holding any token, and their token expiries, unchanged. |
| SlotAdmin.CancelledTokenStaysSpent | interview-scheduler-backend/controllers/slotController.js:357-364 | After a booking and the cancellation of its slot, a new booking with the same token is refused with 410: cancelling does not give the token back. |
| SlotBooking.ProceedHoldsToken | interview-scheduler-backend/controllers/slotController.js:330-413 | The read phase lets a claim through only when its interview holds the token unexpired, belongs to the claim's student, and the slot exists and passes the 15-minute rule. |
| SlotBooking.BookedMeansProceed | interview-scheduler-backend/controllers/slotController.js:321-413 | A request can end in a booking only when every guard of the read phase passed. |
| SlotBooking.CommitAgreesWhenAlone | interview-scheduler-backend/controllers/slotController.js:427-465 | Served alone, the transaction as written and the one that also checks the interview update give the same result. |
| SlotBooking.BookSlot | interview-scheduler-backend/controllers/slotController.js:310-519 | The handler's outcome and new store are those of the specification `BookSlotEffect`: the read phase followed by the transaction. |
| SlotBooking.MissingFieldsRefused | interview-scheduler-backend/controllers/slotController.js:321-324 | A request without a slot id or a token is refused with 400 and writes nothing. |
| SlotBooking.RefusalChangesNothing | interview-scheduler-backend/controllers/slotController.js:348-441 | Whatever refuses a booking, the database is left as it was. |
| SlotBooking.BookedIff | interview-scheduler-backend/controllers/slotController.js:348-413 | A request books exactly when the first interview with the token passes every guard and the slot exists and is bookable now. |
| SlotBooking.GuardPrecedence | interview-scheduler-backend/controllers/slotController.js:356-387 | The guards apply in the source's order: spent token (410) before a held slot (409), before a missing resume (400), before a status other than Invited (400). |
| SlotBooking.UnknownTokenRefused | interview-scheduler-backend/controllers/slotController.js:348-351 | A token no interview holds is refused with 400 and writes nothing. |
| SlotBooking.BookedWrites | interview-scheduler-backend/controllers/slotController.js:426-465 | A successful booking marks the slot booked by the student. It gives the interview the slot, `Scheduled`, the interviewer or "HR Team", the meeting link or its fallbacks, and the token expiry; nothing else changes. |
| SlotBooking.CommitWrites | interview-scheduler-backend/controllers/slotController.js:426-465 | What a successful transaction writes, for any database it runs on: the slot was free and is now booked, and the holder of the token is scheduled. |
| SlotBooking.CommitSpendsToken | interview-scheduler-backend/controllers/slotController.js:456-465 | A committed booking spends the token in every interview that holds it, without changing which interviews hold it. |
| SlotBooking.BookingSpendsToken | interview-scheduler-backend/controllers/slotController.js:456-465 | After a booking, the token is held by the same interviews as before and is spent in all of them. |
| SlotBooking.SingleUse | interview-scheduler-backend/controllers/slotController.js:357-364 | A token books once: any later request with it is refused with 410 and writes nothing. |
| SlotBooking.SpentTokenRefused | interview-scheduler-backend/controllers/slotController.js:357-364 | A token whose interviews have all spent it is refused with 410 and writes nothing. |
| SlotBooking.ClaimLost | interview-scheduler-backend/controllers/slotController.js:431-441 | A claim on a slot that is gone or already booked loses the compare-and-set: 409 and nothing written. |
| SlotBooking.NoDoubleBooking | interview-scheduler-backend/controllers/slotController.js:431-441 | Once one claim on a slot has committed, any other claim on that slot loses with 409, whatever it read. |
| SlotBooking.BookingKeepsConsistent | interview-scheduler-backend/controllers/slotController.js:310-519 | A request served alone keeps the database consistent. |
| SlotBooking.BookedKeepsConsistent | interview-scheduler-backend/controllers/slotController.js:426-467 | A request that books keeps the database consistent. |
| SlotBooking.CommitKeepsConsistent | interview-scheduler-backend/controllers/slotController.js:426-467 | A transaction that books for the interview holding the unexpired token keeps the database consistent. |
| SlotBooking.BookingOneKeepsConsistent | interview-scheduler-backend/controllers/slotController.js:431-465 | Booking a free slot for one interview, recording the slot and spending the token, keeps the database consistent. |
| SlotBooking.AsWrittenSecondClaimBooksOrphan | interview-scheduler-backend/controllers/slotController.js:437-467 | As written, two claims with one token on two free slots both answer 200. The second slot stays booked although no interview holds it. |
| SlotBooking.RaceDbBothProceed | interview-scheduler-backend/controllers/slotController.js:330-413 | On a concrete database, two requests with the same token for slots 1 and 2 both pass the read phase. |
| SlotBooking.AsWrittenRaceBooksTwice | interview-scheduler-backend/controllers/slotController.js:437-467 | On that database, both requests book as written. Slot 2 ends booked with no interview holding it. |
| SlotBooking.CommitHoldsSlot | interview-scheduler-backend/controllers/slotController.js:456-465 | With the interview update checked, a booking always leaves an interview with the token holding the booked slot as `Scheduled`. |
| SlotBooking.CorrectedRaceSecondRefused | interview-scheduler-backend/controllers/slotController.js:431-465 | With the update checked, a second request with the same token committed after a successful one is refused (slot taken or token spent) and writes nothing. |
| InterviewSlots.AllSlots | interview-scheduler-backend/models/InterviewSlot.js:5-19 | `getAll` returns every slot once, in ascending start time. |
| InterviewSlots.AvailableSlots | interview-scheduler-backend/models/InterviewSlot.js:14-15 | `getAvailableSlots` returns exactly the free slots that start strictly after now, each once, in ascending start time. |
| InterviewSlots.AvailableWithinListing | interview-scheduler-backend/models/InterviewSlot.js:14-15 | Every slot offered by the model layer is also in the controller's listing, but a free slot that started a minute ago today is only in the listing. |
| InterviewSlots.AvailableIsFilterOfAll | interview-scheduler-backend/models/InterviewSlot.js:5-19 | The available slots are those of `getAll` that are free and in the future, still in start-time order. |
| InterviewSlots.MarkBooked | interview-scheduler-backend/models/InterviewSlot.js:33-44 | `markBooked` sets the store to the unguarded update of `Tables.MarkBooked` and always reports success. |
| InterviewSlots.MarkBookedOverwrites | interview-scheduler-backend/models/InterviewSlot.js:39-42 | After `markBooked` the slot, if it exists, is booked by the given student whoever held it before. Its time, interviewer and link stay, no other row changes, and an unknown id changes nothing. |
| InterviewSlots.MarkBookedCanStealSlot | interview-scheduler-backend/models/InterviewSlot.js:39-42 | Being unguarded, `markBooked` can take a slot another student holds and break the consistency of a consistent database. |
| StudentController.AddStudent | interview-scheduler-backend/controllers/studentController.js:9-51 | The handler's answer and the new database are those of the add-student specification: required fields first, then the normalised duplicate look-up, then the insert. |
| StudentController.AddStudentIff | interview-scheduler-backend/controllers/studentController.js:15-36 | A student is added exactly when name, email and phone are non-empty text and no stored student has the normalised address. The new row has the trimmed name and phone, the lower-cased trimmed address and no resume, and it is the only change. A refusal changes nothing. |
| StudentController.AddStudentNeedsFields | interview-scheduler-backend/controllers/studentController.js:15-17 | A missing or empty field is answered 400 before the database is read. |
| StudentController.InsertKeepsEmailsUnique | interview-scheduler-backend/controllers/studentController.js:28-36 | Inserting under an address nobody holds keeps stored addresses unique. |
| StudentController.AddKeepsEmailsUnique | interview-scheduler-backend/controllers/studentController.js:20-36 | Adding a student never creates two students with one address. |
| StudentController.InsertStudentKeepsConsistent | interview-scheduler-backend/controllers/studentController.js:28-36 | A new student row leaves every interview/slot/student reference intact. |
| StudentController.AddKeepsConsistent | interview-scheduler-backend/controllers/studentController.js:9-51 | Adding a student keeps the database consistent, whatever the outcome. |
| StudentController.TakenAddressRefused | interview-scheduler-backend/controllers/studentController.js:20-26 | An address whose normal form is already stored is answered 400 and nothing is written. |
| StudentController.SameAddressRefused | interview-scheduler-backend/controllers/studentController.js:20-26 | Once a student is added, a second add with the same address modulo case and surrounding spaces is refused. |
| StudentController.TokenGate | interview-scheduler-backend/controllers/studentController.js:77-124 | When the token's first joined row exists, it names an existing interview whose student exists. |
| StudentController.StudentViewIff | interview-scheduler-backend/controllers/studentController.js:92-134 | The page shows a student exactly when the first interview holding the token is unspent, holds no slot and is Invited; it then shows that interview's student, with the resume masked as "uploaded" or null. |
| StudentController.ViewWithResumeIffEligible | interview-scheduler-backend/controllers/studentController.js:126-134 | The page shows a student with a resume exactly when a booking with the same token would pass every guard on the interview. |
| StudentController.GatesAgreeWithBooking | interview-scheduler-backend/controllers/studentController.js:92-106 | The page and the booking handler agree on which tokens are unknown (404) and which are spent (410). |
| StudentController.LinkExpiresOnBooking | interview-scheduler-backend/controllers/studentController.js:99-106 | After a successful booking, the invitation page answers 410 for that token. |
| StudentController.UpdateResume | interview-scheduler-backend/controllers/studentController.js:141-236 | The handler's answer and the new database are those of the resume-update specification: token and file checks, the four gates, then the conditional update. |
| StudentController.NoTargetNoChange | interview-scheduler-backend/controllers/studentController.js:204-217 | An update whose sub-query selects no student changes nothing. |
| StudentController.ResumeUpdatedIff | interview-scheduler-backend/controllers/studentController.js:169-225 | A resume is stored exactly when a token and a file are given and the gates pass. On its own the conditional update always finds the row the gates passed, so the 410 for zero affected rows cannot happen. A refusal changes nothing. |
| StudentController.TargetsOfOpenToken | interview-scheduler-backend/controllers/studentController.js:209-216 | With unique tokens, the update reaches exactly the student of the token's interview. |
| StudentController.UpdateResumeWrites | interview-scheduler-backend/controllers/studentController.js:204-217 | A stored resume changes only ResumeLink and ResumeFileName of the token's student. The answer carries that student's name. |
| StudentController.UploadEnablesBooking | interview-scheduler-backend/controllers/studentController.js:204-217 | After a resume with a non-empty path is stored, the token passes every booking guard and the page reports the resume as uploaded. |
| StudentController.UpdateResumeKeepsConsistent | interview-scheduler-backend/controllers/studentController.js:141-236 | Updating a resume keeps the database consistent. |
| StudentController.DeleteStudent | interview-scheduler-backend/controllers/studentController.js:651-714 | The handler's answer and the new database are those of the delete-student specification. |
| StudentController.DeleteStudentIff | interview-scheduler-backend/controllers/studentController.js:653-689 | A student is deleted exactly when the id is a 32-bit integer, the student exists and no interview refers to it. Any referring interview gives a refusal that reports its status. A deletion removes that row only; a refusal changes nothing. |
| StudentController.DeleteStudentRejectsBadId | interview-scheduler-backend/controllers/studentController.js:653-656 | An id that parseInt cannot read is answered 400. |
| StudentController.DeleteStudentKeepsConsistent | interview-scheduler-backend/controllers/studentController.js:674-689 | Deleting a student keeps the database consistent: the deleted student has no interview. |
| StudentController.BulkDeleteByDate | interview-scheduler-backend/controllers/studentController.js:717-796 | The handler's answer and the new database are those of the range-delete specification. |
| StudentController.NoInterviewsInRange | interview-scheduler-backend/controllers/studentController.js:760-767 | When no student in range has an interview, the NOT IN filter of the delete excludes nobody in range. |
| StudentController.BulkDeleteIff | interview-scheduler-backend/controllers/studentController.js:719-792 | The range is deleted exactly when both dates are given and valid and no student in range has an interview. Every student created in range is then removed, the count is their number, and nothing else changes. A refusal changes nothing, and its two counts are those of the join, with the first at most the second. |
| StudentController.BulkDeleteKeepsConsistent | interview-scheduler-backend/controllers/studentController.js:740-767 | Deleting a range keeps the database consistent. |
| StudentInvites.Invitees | interview-scheduler-backend/controllers/studentController.js:394-408 | Every selected student is handed to the mail service, in order, under their own id. |
| StudentInvites.SelectionShape | interview-scheduler-backend/controllers/studentController.js:339-401 | An accepted request is a non-empty array of at most 50 readable ids. Its selection is the stored students it names plus, in ascending id, those of them with no interview, and that second group is non-empty. |
| StudentInvites.SelectedAreStudents | interview-scheduler-backend/controllers/studentController.js:364-394 | Every student handed on is a stored student. |
| StudentInvites.SendBulkInvitations | interview-scheduler-backend/controllers/studentController.js:334-448 | A refused selection writes nothing and gives its 400/404 answer. When no mail transport verifies, the answer is 500 and nothing is written. Otherwise the new database and the delivery summary are those of the mail service's run over the uninvited students, and skippedExisting counts the found students that already had an interview. The summary names the provider that FirstVerifying chose. |
| StudentInvites.SelectionRefusals | interview-scheduler-backend/controllers/studentController.js:339-401 | The refusals come in the source's order, each with its exact condition: not a non-empty array, more than 50, an id the driver refuses, no stored student found, all found already invited. One of them applies exactly when there is no selection. |
| StudentInvites.SelectionOnlyNew | interview-scheduler-backend/controllers/studentController.js:370-394 | The students handed on are exactly the requested stored students that have no interview, each once, in ascending id. The found set is exactly the requested stored students. |
| StudentInvites.SkippedCount | interview-scheduler-backend/controllers/studentController.js:436 | The skipped count equals the number of found students that already have an interview. |
| StudentInvites.InvitationsNotRepeated | interview-scheduler-backend/controllers/studentController.js:381-401 | After the selected students are invited, repeating the same request is refused with "already invited", whether or not the mails were delivered. |
| StudentInvites.InvitationsKeepConsistent | interview-scheduler-backend/controllers/studentController.js:334-448 | If the random bytes give each invitee a fresh, distinct token, inviting the selected students keeps the database consistent. |
| StudentInvites.InviteConsistentFor | interview-scheduler-backend/services/emailService.js:321-416 | Inviting any list of at most 50 stored students with fresh, distinct tokens keeps the database consistent. |
| TokenService.HexValue | interview-scheduler-backend/services/tokenService.js:7 | Gives a value in 0..15 exactly for a lower-case hexadecimal digit, and -1 for anything else. |
| TokenService.Hex | interview-scheduler-backend/services/tokenService.js:7 | The hexadecimal text has two lower-case hex digits per byte. |
| TokenService.UnHexOfHex | interview-scheduler-backend/services/tokenService.js:7 | The bytes are recovered from their hexadecimal text (round trip). |
| TokenService.GenerateSecureToken | interview-scheduler-backend/services/tokenService.js:6-8 | A token is 64 lower-case hexadecimal characters. |
| TokenService.TokenInjective | interview-scheduler-backend/services/tokenService.js:6-8 | Different random bytes never give the same token. |
| TokenService.VerifyToken | interview-scheduler-backend/services/tokenService.js:10-30 | A record is returned exactly when the database does not fail and some Invited interview holds the token and has an existing student. The record is that interview, with its student's name and email. A failure returns null. |
| TokenService.InvalidateToken | interview-scheduler-backend/services/tokenService.js:32-44 | Answers true and erases the token from every interview holding it; when the database throws it answers false and nothing changes. |
| TokenService.InvalidatedTokenNotVerified | interview-scheduler-backend/services/tokenService.js:22 | Once a token is erased, verifyToken finds nothing for it. |
| TokenService.ClearTokenFrame | interview-scheduler-backend/services/tokenService.js:37 | Erasing a token changes only the InvitationToken column, and only for rows that held that token. |
| TokenService.ClearTokenKeepsConsistent | interview-scheduler-backend/services/tokenService.js:37 | Erasing a token keeps the database consistent. |
| ResumeDownloads.KeepNameChars | interview-scheduler-backend/controllers/studentController.js:515 | Dropping characters never lengthens the name and leaves only ASCII letters, digits and whitespace. |
| ResumeDownloads.CollapseSpace | interview-scheduler-backend/controllers/studentController.js:516 | Collapsing whitespace runs never lengthens the text and keeps a non-space first character. |
| ResumeDownloads.CollapseSpaceChars | interview-scheduler-backend/controllers/studentController.js:515-516 | After the two replaces, the name holds only letters, digits and "_", and never two "_" in a row. |
| ResumeDownloads.CollapseSpaceAlnums | interview-scheduler-backend/controllers/studentController.js:516 | Collapsing whitespace keeps every letter and digit, in order. |
| ResumeDownloads.KeepNameCharsAlnums | interview-scheduler-backend/controllers/studentController.js:515 | Dropping the other characters keeps every letter and digit, in order. |
| ResumeDownloads.TrimAlnums | interview-scheduler-backend/controllers/studentController.js:514 | Trimming keeps every letter and digit, in order. |
| ResumeDownloads.CleanNameShape | interview-scheduler-backend/controllers/studentController.js:298-302 | The clean name has at most 50 characters, all letters, digits or "_" with no "__". Its letters and digits are a prefix of the name's, and all of them when the name has at most 50 characters. |
| ResumeDownloads.PrefixShape | interview-scheduler-backend/controllers/studentController.js:517 | Cutting at 50 keeps the character rules and a prefix of the letters and digits, and leaves a short name whole. |
| ResumeDownloads.PlainKept | interview-scheduler-backend/controllers/studentController.js:515-516 | A name of letters and digits only passes both replaces unchanged. |
| ResumeDownloads.CleanNameOfFullName | interview-scheduler-backend/controllers/studentController.js:513-517 | "First   Last" (any whitespace gap) becomes "First_Last". |
| ResumeDownloads.FullNameKept | interview-scheduler-backend/controllers/studentController.js:515 | A name of letters, digits and a whitespace gap keeps all its characters under the first replace. |
| ResumeDownloads.CollapseSpaced | interview-scheduler-backend/controllers/studentController.js:516 | Words of letters and digits separated by whitespace runs collapse to the words joined by single "_": each run becomes exactly one "_", in its place, and nothing else changes. Leading or trailing whitespace gives a leading or trailing "_". |
| ResumeDownloads.FullNameCollapsed | interview-scheduler-backend/controllers/studentController.js:516 | The whitespace gap of such a name becomes one "_". |
| ResumeDownloads.CandidateInjective | interview-scheduler-backend/controllers/studentController.js:520-524 | Different counters give different candidate names: the plain name (0) and the "_N" ones. |
| ResumeDownloads.CandidatesBound | interview-scheduler-backend/controllers/studentController.js:522-525 | Only as many candidates can be taken as there are used names, so the counter loop ends. |
| ResumeDownloads.FirstFree | interview-scheduler-backend/controllers/studentController.js:520-525 | The chosen counter is the first whose candidate is unused; every earlier candidate is used. |
| ResumeDownloads.FirstFreeUnique | interview-scheduler-backend/controllers/studentController.js:520-525 | The first unused candidate is the only counter those two facts describe. |
| ResumeDownloads.NextName | interview-scheduler-backend/controllers/studentController.js:520-526 | The de-duplication loop returns a name not yet in processedNames, namely the first free candidate. |
| ResumeDownloads.ArchiveNames | interview-scheduler-backend/controllers/studentController.js:497-536 | Every archived file gets a name. |
| ResumeDownloads.ArchiveNamesPrefix | interview-scheduler-backend/controllers/studentController.js:497-536 | The names given to the first k files do not depend on the files after them. |
| ResumeDownloads.ArchiveNamesDistinct | interview-scheduler-backend/controllers/studentController.js:519-526 | No two archive entries get the same name. |
| ResumeDownloads.ArchiveNameChosen | interview-scheduler-backend/controllers/studentController.js:519-526 | Each entry's name is its stem's first candidate not taken by an earlier entry. |
| ResumeDownloads.PlainNameWhenFree | interview-scheduler-backend/controllers/studentController.js:520 | Unless an earlier entry took it, an entry is named plainly: clean name plus extension. |
| ResumeDownloads.RowsHaveResumes | interview-scheduler-backend/controllers/studentController.js:468-473 | Every row of the query has a resume link. |
| ResumeDownloads.FoundRows | interview-scheduler-backend/controllers/studentController.js:511-532 | The rows whose files are found are a subsequence of the query rows, each with a resume. |
| ResumeDownloads.FoundRowsStep | interview-scheduler-backend/controllers/studentController.js:511-532 | Each row is added when its file is on disk and skipped otherwise. |
| ResumeDownloads.FoundRowsExactly | interview-scheduler-backend/controllers/studentController.js:511-532 | The archived rows are exactly the query rows with a resume whose resolved file exists. |
| ResumeDownloads.NamesOfEntries | interview-scheduler-backend/controllers/studentController.js:519-528 | The names of the archive entries are the de-duplicated names. |
| ResumeDownloads.EntriesStep | interview-scheduler-backend/controllers/studentController.js:519-528 | Adding a file appends one entry, under its first free name, and records that name as used. |
| ResumeDownloads.CandidateShape | interview-scheduler-backend/controllers/studentController.js:520-523 | Each candidate starts with the clean name and ends with the lower-cased extension. |
| ResumeDownloads.DownloadRefusals | interview-scheduler-backend/controllers/studentController.js:456-479 | A missing or empty array gets 400, and an id the driver refuses gets 500. When no requested student has a resume link the answer is 404, and otherwise an archive is built. |
| ResumeDownloads.NoResumesMeansNoneRequested | interview-scheduler-backend/controllers/studentController.js:477-479 | A 404 means every requested id was readable and none of those students has a resume link. |
| ResumeDownloads.ArchiveNamesUnique | interview-scheduler-backend/controllers/studentController.js:495-528 | The archive never holds two entries with one name. |
| ResumeDownloads.ArchiveSound | interview-scheduler-backend/controllers/studentController.js:497-532 | Every entry is the file of a requested student whose resume exists. Its name starts with that student's clean name and ends with the file's lower-cased extension. |
| ResumeDownloads.EntryOfRow | interview-scheduler-backend/controllers/studentController.js:497-532 | Entry k comes from the k-th archived row, and it comes from the request. |
| ResumeDownloads.ArchiveComplete | interview-scheduler-backend/controllers/studentController.js:497-532 | Every requested student whose resume file exists is in the archive. |
| ResumeDownloads.DownloadBulkResumes | interview-scheduler-backend/controllers/studentController.js:452-551 | The handler's answer is that of the download plan: the refusals, or the archive Resumes_<date>.zip with the entries above. |
| ResumeDownloads.PackResumes | interview-scheduler-backend/controllers/studentController.js:493-536 | The packing loop builds exactly the entries of the found rows, each named by the de-duplication rule. |
| ExcelService.FirstTruthyChoice | interview-scheduler-backend/services/excelService.js:114-116 | The value read for a field is the cell of the first alias column, in order, whose cell is truthy. When no such cell exists it is the empty string. |
| ExcelService.CheckCleaned | interview-scheduler-backend/services/excelService.js:137-154 | A cleaned row passes only when it satisfies every rule: a name of at least 2 characters from the name class, an address of the form x@y.z, and a phone of 7 to 20 allowed characters. The row is then passed on unchanged. |
| ExcelService.CheckFieldsClean | interview-scheduler-backend/services/excelService.js:119-154 | A row that passes had text in all three fields. The stored values are the trimmed name, the trimmed lower-cased email and the trimmed phone, and they meet every rule. |
| ExcelService.CleanedValuesFixed | interview-scheduler-backend/services/excelService.js:132-134 | Cleaning is idempotent: trimming and lower-casing a stored value again changes nothing. |
| ExcelService.TrimTwice | interview-scheduler-backend/services/excelService.js:132 | Trimming twice equals trimming once. |
| ExcelService.NumericPhoneRefused | interview-scheduler-backend/services/excelService.js:116-129 | A phone cell that holds a non-zero number, not text, rejects the row as "phone required", because typeof is checked before toString. |
| ExcelService.NameClassAdmitsPunctuation | interview-scheduler-backend/services/excelService.js:141 | The name class `'-\.` is the range from `'` to `.`, so "(", ")", "*", "+" and "," pass while "_" and "!" do not. |
| ExcelService.AddressHasOneAt | interview-scheduler-backend/services/excelService.js:146 | An address that passes the email rule contains exactly one "@". |
| ExcelService.AddressExamples | interview-scheduler-backend/services/excelService.js:146 | "ann@example.com" passes the rule. "ann@b@example.com" (two @) and "ann@example" (no dot after the @) fail it. |
| ExcelService.ProcessExcelFile | interview-scheduler-backend/services/excelService.js:82-241 | The import loop's report and new database are those of the row-by-row import specification. An empty sheet is refused before anything is written. |
| ExcelService.IssueNumbered | interview-scheduler-backend/services/excelService.js:161-201 | Appending an issue for row i+2 keeps the report's row numbers in range, ordered and disjoint. |
| ExcelService.AddedNumbered | interview-scheduler-backend/services/excelService.js:184-190 | Appending an imported row for row i+2 keeps the report's row numbers in range, ordered and disjoint. |
| ExcelService.HandleCheckTallies | interview-scheduler-backend/services/excelService.js:161-201 | Handling one row adds exactly one to successful, failed or duplicates, adds its entry to the matching list, and keeps total. |
| ExcelService.ImportFromTallies | interview-scheduler-backend/services/excelService.js:108-204 | After the loop, successful + failed + duplicates equals the rows handled. errors holds one entry per failed or duplicate row and processed one per successful row, all numbered by sheet row in order. |
| ExcelService.ImportReportAddsUp | interview-scheduler-backend/services/excelService.js:93-224 | An empty sheet is refused and writes nothing. Otherwise total is the row count, successful + failed + duplicates = total, and row numbers are i+2 in sheet order. |
| ExcelService.AddedIdsAppend | interview-scheduler-backend/services/excelService.js:184-190 | The set of imported ids grows by exactly the new row's id. |
| ExcelService.InsertAdds | interview-scheduler-backend/services/excelService.js:173-190 | Inserting a row's student extends the listed additions by that student and keeps every earlier row. |
| ExcelService.InsertListed | interview-scheduler-backend/services/excelService.js:173-190 | After an insert, the students are exactly the earlier ones plus the listed new ones, each holding its row's values. |
| ExcelService.HandleCheckAdds | interview-scheduler-backend/services/excelService.js:156-201 | Handling one row either changes nothing or adds exactly the student listed in processed. |
| ExcelService.ImportFromAdds | interview-scheduler-backend/services/excelService.js:108-204 | The loop adds exactly the students listed in processed, under increasing fresh ids, and changes nothing already stored. |
| ExcelService.HandleCheckValid | interview-scheduler-backend/services/excelService.js:137-190 | A row listed as imported satisfies every field rule. |
| ExcelService.ImportFromValid | interview-scheduler-backend/services/excelService.js:108-204 | Every student the loop lists as imported satisfies every field rule. |
| ExcelService.ImportAddsOnlyListed | interview-scheduler-backend/services/excelService.js:82-241 | The import adds exactly the students in processed, each valid and holding its cleaned values, and changes nothing else. |
| ExcelService.HandleCheckKeepsConsistent | interview-scheduler-backend/services/excelService.js:156-190 | Handling one row keeps the database consistent and the stored addresses unique. |
| ExcelService.ImportFromKeepsConsistent | interview-scheduler-backend/services/excelService.js:108-204 | The loop keeps the database consistent and the stored addresses unique. |
| ExcelService.ImportKeepsConsistent | interview-scheduler-backend/services/excelService.js:82-241 | An import keeps the database consistent and never stores one address twice. |
| ExcelService.ImportedAddressesFresh | interview-scheduler-backend/services/excelService.js:156-170 | Imported addresses are pairwise distinct, and none of them was stored before the import. |
| ExcelService.ResumeColumns | interview-scheduler-backend/services/excelService.js:290-292 | The resume columns are exactly the truthy headers whose lower-cased text contains "resume" or "cv". |
| ExcelService.ResumeColumnsAppend | interview-scheduler-backend/services/excelService.js:290-292 | The filter keeps header order: the resume columns of two header lists joined are those of the first list followed by those of the second. |
| ExcelService.ValidateStructure | interview-scheduler-backend/services/excelService.js:244-311 | The structure is valid exactly when there is a header row with a name, an email and a phone alias column, and every truthy header is text. On success rowCount is data.length - 1, and the resume columns are found as above. The sheet is refused as empty exactly when there is no row. It is refused as unreadable (the thrown 500) exactly when all three alias groups are present but some truthy header is not text. |
| ExcelService.MissingColumnsInOrder | interview-scheduler-backend/services/excelService.js:258-287 | The first missing column group is reported in the order name, email, phone. |
| EmailService.PrimaryPort | interview-scheduler-backend/services/emailService.js:120 | The primary port is never 0: when parseInt gives NaN or 0, the port falls back to 587. |
| EmailService.TransportConfigsShape | interview-scheduler-backend/services/emailService.js:106-153 | There are no configurations exactly when the user or the password is missing. Otherwise there are two on the same host and account: STARTTLS on the configured port (587 when that is unreadable), secure only for EMAIL_SECURE "true", then SSL on 465 with TLS. |
| EmailService.CreateTransporter | interview-scheduler-backend/services/emailService.js:156-196 | Chooses exactly the configuration FirstVerifying names. |
| EmailService.FirstVerifying | interview-scheduler-backend/services/emailService.js:167-193 | The first configuration, in list order, whose verify succeeds. Nothing is chosen (the call throws) exactly when the list is empty or every verify fails. |
| EmailService.ProviderChoice | interview-scheduler-backend/services/emailService.js:106-153 | With credentials set, the reported provider is "B2World STARTTLS" when its check succeeds, and "B2World SSL" when only that check succeeds. When both fail, nothing is chosen. |
| EmailService.SendBulkInvitations | interview-scheduler-backend/services/emailService.js:290-431 | Fails, writing nothing, exactly when no transport verifies. Otherwise the new database and the returned summary are those of the per-student invitation run. The summary's provider is the name of the configuration that FirstVerifying chose. |
| EmailService.InviteFromCounts | interview-scheduler-backend/services/emailService.js:321-416 | Each student from the i-th on is counted exactly once, as sent or failed. The error list stays empty exactly when every remaining message is delivered. |
| EmailService.BulkInviteSummaryCounts | interview-scheduler-backend/services/emailService.js:418-426 | Sent plus failed equals the number attempted, which is the number of students. The run reports success exactly when no message failed, that is, exactly when all were delivered. |
| EmailService.InviteFromFrame | interview-scheduler-backend/services/emailService.js:332-339 | The run adds one new interview per remaining student under consecutive fresh ids and changes no other row or table. |
| EmailService.InviteFromRow | interview-scheduler-backend/services/emailService.js:328-339 | Student k's row is an Invited interview with no slot, holding the token printed from the k-th random bytes. |
| EmailService.InviteFromWrites | interview-scheduler-backend/services/emailService.js:321-416 | Each student gets an Invited interview holding its own token, whether or not its message is delivered, and nothing else changes. |
| EmailService.InviteOneKeepsConsistent | interview-scheduler-backend/services/emailService.js:333-339 | One invitation row for a stored student, with a token no interview holds, keeps the database consistent. |
| EmailService.InviteFromKeepsConsistent | interview-scheduler-backend/services/emailService.js:321-416 | Inviting stored students with fresh, pairwise distinct tokens keeps the database consistent. |
| EmailService.SendInvitationEmail | interview-scheduler-backend/services/emailService.js:213-287 | The interview row is always inserted, even when no transport works or the message is refused. A result comes back exactly when a transport verifies and the message is delivered, and it carries the token, the frontend link built from it, and the provider name of the configuration that FirstVerifying chose. |
| EmailService.Dedupe | interview-scheduler-backend/services/emailService.js:517 | Keeps exactly the addresses of the input, without repeats and never more of them. |
| EmailService.DropOwnAndEmpty | interview-scheduler-backend/services/emailService.js:517-519 | Keeps exactly the non-empty addresses that differ from the student's, and keeps addresses distinct if they were. |
| EmailService.HrRecipientsExactly | interview-scheduler-backend/services/emailService.js:506-519 | An address is notified exactly when it is HR_NOTIFICATION_EMAIL or INTERVIEWER_EMAIL, is non-empty and is not the student's. None is notified twice, so at most two are. |
| EmailService.HrRecipientsOrder | interview-scheduler-backend/services/emailService.js:506-519 | When both addresses are configured, differ from each other and differ from the student's, the recipients are exactly HR first and then the interviewer. |
| EmailService.Reached | interview-scheduler-backend/services/emailService.js:524-553 | The reached recipients are exactly those whose notification was delivered. |
| EmailService.NotifyHr | interview-scheduler-backend/services/emailService.js:524-553 | The loop tries every recipient in order. A failed notification is only logged and the loop goes on, so the delivered ones are exactly those Reached selects. |
| EmailService.ReachedSnoc | interview-scheduler-backend/services/emailService.js:524-553 | Trying one more recipient extends the delivered list by that recipient exactly when its message is delivered. |
| EmailService.SendConfirmationEmail | interview-scheduler-backend/services/emailService.js:434-566 | Succeeds exactly when a transport verifies and the student's message is delivered. hrEmailsSent is the recipient count whether or not each notification went through, and hrNotified holds exactly when that count is positive. On success the provider is the name of the configuration that FirstVerifying chose. |
| InterviewController.RequestedStatus | interview-scheduler-backend/controllers/interviewController.js:68-71 | A status is accepted exactly when it is text naming one of the five statuses, and it reads back as that text. |
| InterviewController.UpdateInterviewStatus | interview-scheduler-backend/controllers/interviewController.js:63-84 | The answer and the new database are those of the status-update specification. |
| InterviewController.UpdateStatusIff | interview-scheduler-backend/controllers/interviewController.js:63-84 | An unknown status gets 400. The update happens exactly when the status is known and the driver accepts the id. A refusal writes nothing. |
| InterviewController.UpdateStatusWritesOnlyStatus | interview-scheduler-backend/controllers/interviewController.js:74-77 | An update changes only the Status column of that interview. An id no interview has changes nothing. |
| InterviewController.AnyTransitionAllowed | interview-scheduler-backend/controllers/interviewController.js:68-77 | There is no transition rule: any status can be set from any status. |
| InterviewController.CancelledStatusKeepsSlot | interview-scheduler-backend/controllers/interviewController.js:74-77 | Setting Cancelled here leaves the slot held and booked, unlike cancelling a booking. |
| InterviewController.UpdateStatusKeepsConsistent | interview-scheduler-backend/controllers/interviewController.js:74-77 | A status update keeps the database consistent. |
| InterviewController.DeleteInterview | interview-scheduler-backend/controllers/interviewController.js:86-101 | The answer and the new database are those of the delete-interview specification. |
| InterviewController.DeleteInterviewIff | interview-scheduler-backend/controllers/interviewController.js:88-94 | An id is refused with 400 exactly when parseInt finds no number or finds 0. A deletion removes exactly that interview, if it exists. A refusal writes nothing. |
| InterviewController.TrailingTextIgnored | interview-scheduler-backend/controllers/interviewController.js:88-89 | parseInt reads only the leading digits, so "12abc" deletes interview 12 and "0" is refused. |
| JsText.MagnitudeShape | interview-scheduler-backend/controllers/interviewController.js:88 | After the sign, parseInt finds a number exactly when the text starts with a decimal digit, or with 0x/0X followed by a hexadecimal digit. A text with no digit at all gives NaN. |
| JsText.ParseIntShape | interview-scheduler-backend/controllers/slotController.js:528 | A text without digits gives NaN. A negative result comes only from a text whose first non-space character is a minus sign. |
| JsText.ParseIntIgnoresTail | interview-scheduler-backend/controllers/studentController.js:653 | Decimal digits read as their value whatever follows the first non-digit, except a 0x prefix. |
| JsText.ParseIntOfIntToString | interview-scheduler-backend/controllers/slotController.js:679 | parseInt reads back the decimal text printed for every integer, negative ones included. |
| JsText.ParseIntValue | interview-scheduler-backend/controllers/studentController.js:360 | A request number reads as itself, and a missing value gives NaN. A request number is an integer below 1e21 in magnitude, where String prints it in plain decimal. |
| JsText.ParseIntValueOfText | interview-scheduler-backend/controllers/slotController.js:392 | Reading a request value directly is the same as applying parseInt to the text String prints for it, for numbers, texts and undefined alike. |
| InterviewController.TwelveAbc | interview-scheduler-backend/controllers/interviewController.js:88 | parseInt reads "12abc" as 12. |
| InterviewController.DeleteInterviewKeepsConsistent | interview-scheduler-backend/controllers/interviewController.js:86-101 | Deleting an interview keeps the database consistent. |
| InterviewController.DeleteLeavesSlotBooked | interview-scheduler-backend/controllers/interviewController.js:86-101 | Deleting an interview that holds a slot leaves that slot booked by the student, with no interview holding it. |
| Validation.UnknownKeyRefused | interview-scheduler-backend/middleware/validation.js:5-10 | The student schema refuses a body with any key other than name, email, phone and resumeLink, whatever the other fields hold. |
| Validation.PlainNumbersArePhones | interview-scheduler-backend/middleware/validation.js:8 | Every positive number below 10^16, written plainly or after a "+", passes the phone pattern. |
| Validation.PhonePatternShape | interview-scheduler-backend/middleware/validation.js:8 | Text that passes the phone pattern has at most 17 characters, all digits except an optional leading "+". |
| Validation.PhoneRulesDisagree | interview-scheduler-backend/middleware/validation.js:8 | The schema's phone rule and the spreadsheet import's disagree in both directions: "555-0100" and "0123456" pass the import only, "+1234" passes the schema only. |
| Validation.DashedPhone | interview-scheduler-backend/middleware/validation.js:8 | "555-0100" passes the spreadsheet import's phone rule but not the schema's pattern. |
| Validation.ShortPhone | interview-scheduler-backend/middleware/validation.js:8 | "+1234" passes the schema's pattern but is too short for the spreadsheet import. |
| Validation.LeadingZeroPhone | interview-scheduler-backend/middleware/validation.js:8 | "0123456" passes the spreadsheet import but not the schema, which forbids a leading zero. |
| Validation.NameRulesDisagree | interview-scheduler-backend/middleware/validation.js:6 | The schema's name rule only counts characters: "A1" and two spaces pass it, and "A1" fails the spreadsheet import's name rule. |
| Validation.SlotAtNowAllowed | interview-scheduler-backend/middleware/validation.js:13 | A slot date equal to now passes min('now'); one a millisecond earlier is refused. |
| Validation.NumberText | interview-scheduler-backend/middleware/validation.js:17 | Text converts to a number only when it holds something besides whitespace. |
| Validation.NumberTextOfIntToString | interview-scheduler-backend/middleware/validation.js:17 | The text printed for any integer converts back to that integer. |
| Validation.NumberTextAgreesWithParseInt | interview-scheduler-backend/middleware/validation.js:17 | Whenever Joi converts a text to a number, parseInt reads the same integer from it. |
| Validation.InvitationTokenPasses | interview-scheduler-backend/middleware/validation.js:16-19 | Every token the invitation service generates, paired with any positive safe-integer slot id, passes the booking schema. |
| Validation.SlotIdExamples | interview-scheduler-backend/middleware/validation.js:17 | A slot id of 0, a negative id or a missing id is refused. 7 and "7" pass; "-7" and "7a" are refused. |
| Validation.SevenText | interview-scheduler-backend/middleware/validation.js:17 | The text "7" converts to 7. |
| Validation.MinusSevenText | interview-scheduler-backend/middleware/validation.js:17 | The text "-7" converts to -7. |
| Validation.SevenAText | interview-scheduler-backend/middleware/validation.js:17 | The text "7a" does not convert to a number. |
| Validation.UnsignedNonNumeral | interview-scheduler-backend/middleware/validation.js:17 | Trimmed text that starts with a digit and contains a non-digit does not convert. |
| Validation.TokenLengthExact | interview-scheduler-backend/middleware/validation.js:18 | A token of any length other than 64 is refused. |
| Server.FileFilter | interview-scheduler-backend/server.js:58-96 | An upload is accepted exactly when its type is one of the five allowed, an "excel" field has an Excel type, and a "resume" field has a resume type. |
| Server.FieldTakesItsOwnKind | interview-scheduler-backend/server.js:79-89 | The "excel" field accepts exactly the Excel types, and the "resume" field exactly the resume types. |
| Server.OtherFieldTakesEitherKind | interview-scheduler-backend/server.js:79-89 | Any other field name accepts every type of either kind. |
| Server.UnknownTypeMessage | interview-scheduler-backend/server.js:90-95 | For an unknown type, the refusal message depends only on whether the field is "excel". |
| Server.WrongKindMessage | interview-scheduler-backend/server.js:81-87 | A resume type on the excel field, or an Excel type on the resume field, gets that field's wrong-type message. |
| Server.CleanBase | interview-scheduler-backend/server.js:50 | The cleaned name has the same length, keeps every ASCII letter and digit in place, and turns every other character into "_". |
| Server.CleanBaseFixedIff | interview-scheduler-backend/server.js:50 | Cleaning leaves a name unchanged exactly when it has only ASCII letters, digits and "_". |
| Server.CleanBaseIdempotent | interview-scheduler-backend/server.js:50 | Cleaning twice gives the same result as cleaning once. |
| Server.NumeralPlain | interview-scheduler-backend/server.js:45 | The unique suffix's numerals contain no "/", "." or "-". |
| Server.CleanPlain | interview-scheduler-backend/server.js:50 | A cleaned name contains no "/" and no ".". |
| Server.StoredStemPlain | interview-scheduler-backend/server.js:51 | For a field name with no "/" or ".", the stored name before its extension contains neither character. |
| Server.ExtensionHasNoSlash | interview-scheduler-backend/server.js:46 | An extension never contains "/". |
| Server.StoredNameKeepsExtension | interview-scheduler-backend/server.js:44-54 | For a field name with no "/" or ".", the stored name is a plain file name that keeps the original extension, and the part before it is field-cleanbase-suffix. |
| Server.StoredNamesDistinct | interview-scheduler-backend/server.js:45-51 | Two uploads of the same original name with different clock or random suffixes get different stored names. |
| Server.SuffixInjective | interview-scheduler-backend/server.js:45 | The suffix "millis-random" determines both numbers. |
| Server.HandleError | interview-scheduler-backend/server.js:133-150 | The reply is 400 exactly for an upload-library error and 500 exactly for any other error. |
| Server.RefusedUploadIsServerError | interview-scheduler-backend/server.js:133-150 | A file-filter refusal is a plain Error, so it is answered 500 with its message, while an oversized file gets 400 with the 5 MB message. |
| Server.Fallback | interview-scheduler-backend/server.js:119-130 | A URL starting with /api or /uploads gets 404 "Route not found". Any other URL gets the frontend index when it exists, and otherwise 404 for a missing build. |
| Server.PrefixIsTextual | interview-scheduler-backend/server.js:120 | The prefix test is textual and case-sensitive: "/apiary" and "/uploads2" get 404, while "/API/x" gets the frontend. |

## Left out

- Database connection, driver errors and transactions. Each SQL statement is one atomic step on the in-memory store, and a rollback leaves the state as it was before the transaction. The model keeps only the 500 answers the code produces itself: an id outside the 32-bit `Int` range, an invalid date, and `trim` called on a non-text value.
- Concurrency. Handlers run one after another. Only `bookSlot` is split into a read phase (`SlotBooking.CheckBooking`) and a transaction (`SlotBooking.Commit`), so that another request's writes can come between them (see Findings).
- SMTP, nodemailer, template files and mail bodies. Whether a transport verifies and whether each message is delivered are parameters. The confirmation mail's date formatting (`toLocaleString`, time zones) is left out.
- The confirmation mail sent after a booking. Its failure never changes the booking's 200, so `SlotBooking.BookSlot` does not call it. `EmailService.SendConfirmationEmail` models the recipient logic on its own.
- XLSX reading and writing, `generateSampleExcel` and `getSupportedColumns`. The import starts from the rows `sheet_to_json` produced, and the structure check starts from the header array. A cell is undefined, a number or a text; dates and booleans in cells are not modelled.
- `downloadResume` (one file), which streams a file with content headers. Only its clean name is modelled, which is the same rule as the bulk download's. The archive is modelled as its list of entries, not the zip stream.
- `resolvedPath` normalisation. `path.join` and `path.isAbsolute` are approximated: an absolute link starts with `/`, and no `..` or `.` segments are collapsed.
- File cleanup after deletes and imports (`fs.unlinkSync`), and the `filesDeleted` count. The deletes answer the same whether or not a file existed.
- Multer internals other than the filter, the stored name and the error handler: field counts, unexpected fields, partial files.
- Joi's email and URI checks, and Joi's date conversion, are parameters of the predicates. `Joi.number()` is modelled for integers written in decimal, optionally signed and surrounded by whitespace. Fractions, exponents and hexadecimal text are not modelled.
- The `validate` wrapper itself, which answers 400 with Joi's messages. Its schemas are not wired to any route.
- The other read-only handlers (`getSlots`, the date-range and interviewer listings, `getAllStudents`, `getStudentInterviewStatus`), the parallel `sendInvitations`, `testConnection`, JWT checks, the health check, CORS, logging and route wiring.
- UTF-16. Strings are sequences of code points, and `toLowerCase` is modelled on ASCII letters only.
- The message texts of JSON answers. Outcomes are datatype constructors with their status codes.
- JsText.ToLower: modelled for ASCII letters only, which is all that the stored email addresses and file extensions need here.
- SQL text comparison. Every look-up by token or by email address is modelled as exact string equality: `Tables.TokenRows`, `Tables.ResumeTargets`, `Tables.Unexpired`, `Tables.ScheduleByToken`, `Tables.ClearToken` and `Tables.StudentsWithEmail`. These are used by `SlotBooking.BookSlot`, the `StudentController` token pages and resume upload, `TokenService.VerifyToken`/`InvalidateToken`, and the duplicate-address checks. SQL Server's `=` on NVARCHAR ignores trailing spaces, and also ignores case under a case-insensitive collation such as the default `SQL_Latin1_General_CP1_CI_AS`. So a live token with a trailing space, or in upper case, finds its interview in the program, but the model answers that the token is unknown (`SlotBooking.UnknownTokenRefused`). The collation is not part of the code.
- Validation.NumberText: covers signed decimal integers only, not the fractions and exponents `Joi.number()` also converts.
- JsText.JsValue: a request number is an integer below 1e21 in magnitude. Larger numbers, which `String` prints with an exponent, are left out, and so are fractions, booleans and arrays. Rounding JSON numbers to doubles happens before the model.
- EmailService.SendBulkInvitations: the per-student results carry no messageId and no provider field; only the summary's provider is modelled.

## Findings

| source | as written | input that shows it | evidently intended | confidence | as-written member | corrected member |
|---|---|---|---|---|---|---|
| interview-scheduler-backend/controllers/slotController.js:455-467 | The booking transaction runs the Interviews update guarded by `TokenExpiredAt IS NULL` but never reads its affected-row count, then commits and answers 200. | Two requests with one unspent token, for free slots 1 and 2, both pass the read phase before either commits. Both claims succeed and both answer 200. Slot 2 stays booked with no interview holding it. | When the interview update affects no row, roll back and refuse the booking, so one token books at most one slot. | not executed | SlotBooking.AsWrittenRaceBooksTwice | SlotBooking.CorrectedRaceSecondRefused |

# Car rental system: a verified model of its core

The system is a desktop car-rental application in two processes:

- **The C++ worker** (`main.cpp`, `CarManager`, `Car`) keeps the car list. It saves the list to `cars_data.txt` as one `|`-separated line per car. It answers commands through two JSON files, `command.json` and `result.json`.
- **The Java Swing client** sends those commands through `CarService`. The client also holds the rules of its pages:
  - the catalogue's filters and wrapping layout;
  - the login, registration and forgotten-password checks;
  - the administrator's user and car dialogs;
  - the checkout form;
  - the car detail page's buttons;
  - the feedback stars.

This project models that core in Dafny, as immutable datatypes and pure functions, and proves properties of it. Each module follows one source component:

| module | models |
|---|---|
| `Json`, `Cars` | the JSON value both sides exchange and the car record's `toJson`/`fromJson` |
| `CarStore`, `CarSort`, `CarFile` | `CarManager`: add, update, delete, search, filter, sort and the line file |
| `WorkerLoop` | one pass of the worker's polling loop in `main.cpp` |
| `Exchange` | `CarService`: command preparation, the polling loop and response parsing |
| `Bridge` | both halves together: a command sent is answered and read back |
| `ImagePaths` | the three spellings of an image path and the rewrites between them |
| `CarList`, `WrapLayout` | `CarListPage`: filters, type choices and `WrapLayout.layoutSize` |
| `Users`, `Registration`, `FormRules` | `UserStorage`, `LoginPage`, `RegistrationPage` and their shared text patterns |
| `Admin` | `AdminDashboard`: the user and car dialogs and their effect on the local lists |
| `Checkout`, `CarDetail`, `Feedback` | `CheckoutPage`, `CarDetailPage`, `FeedbackPage` |
| `Wrappers`, `Text`, `Seqs` | `Option`/`Result`, string helpers (ASCII case, trimming, splitting) and sequence filtering |

The model abstracts the following:

- **Textual JSON.** A `Wire` is a parse/render pair, supplied as a parameter. The lemmas that need it assume it is faithful: parsing undoes rendering, for every document whose numbers a `double` can hold (`Json.Representable`: dyadic rationals, since no text format round-trips every real). The end-to-end lemmas therefore ask that the cars involved have such a rating and price (`Cars.Exact`), which every car either program holds in its `double` fields does.
- **Number formatting.** `operator<<` on a double and `std::stod` form a `NumFormat` pair, also a parameter.
- **Numbers.** Doubles are reals.
- **Dates.** They are day numbers. A date parser and "today" are parameters.
- **Time.** The client's polling loop sees a list of (clock, file content) observations.

## Model

| member | source | states |
|---|---|---|
| Json.ValueStr | src/cpp/main.cpp:92-99 | `value(key, default)` throws unless the value is an object whose key, if present, holds a string; an absent key gives the default |
| Json.ValueNum | src/cpp/main.cpp:186-187 | the same for a number key |
| Json.ValueBool | src/cpp/main.cpp:188 | the same for a boolean key |
| Json.RenderNonEmpty | src/com/carrental/CarService.java:263 | a rendered non-empty object whose numbers are doubles is never the `{}` placeholder or empty, so the client cannot mistake a response for "no content" |
| Cars.ToJson | src/cpp/Car.cpp:54-69 | `toJson` gives an object that `fromJson` reads back as the same car |
| Cars.ToJsonShape | src/cpp/Car.cpp:54-69 | `toJson` gives an object with exactly the twelve keys, each holding its own field |
| Cars.EncodeCars | src/cpp/main.cpp:108-111 | the data array holds each car's encoding, in list order |
| Cars.ToJsonRepresentable | src/cpp/Car.h:17-24 | a car's encoding survives a faithful wire exactly when its two `double` fields, rating and price, hold doubles |
| Cars.EncodeCarsRepresentable | src/cpp/main.cpp:108-111 | an encoded list survives a faithful wire exactly when every car in it does |
| Cars.FromJson | src/cpp/Car.cpp:71-86 | a non-object cannot be decoded, and `{}` decodes to the default-constructed car |
| Cars.DecodeCars | src/com/carrental/CarService.java:343 | a list decodes only if every element decodes, and then element by element |
| Cars.DecodeEncodeCars | src/cpp/Car.cpp:54-86 | decoding an encoded list gives the same list back |
| Cars.FromEmptyObject | src/cpp/Car.cpp:9-13 | decoding `{}` gives the default-constructed car |
| Cars.FromJsonDefaults | src/cpp/Car.cpp:73-86 | for each of the twelve fields, a missing key gives its default and a present key is read as it is |
| Cars.FromJsonAccepts | src/cpp/Car.cpp:73-86 | an object decodes exactly when each of the twelve keys it holds has a value of its field's type; other keys are ignored |
| Cars.FromJsonNonObject | src/cpp/main.cpp:118 | a non-object, such as the null from a missing `car` key, cannot be decoded |
| CarStore.AddCar | src/cpp/CarManager.cpp:96-99 | the new car is appended and the existing cars keep their places |
| CarStore.FirstWithName | src/cpp/CarManager.cpp:102-103 | finds the first position holding the name, or none exactly when no car has it |
| CarStore.UpdateCar | src/cpp/CarManager.cpp:101-110 | succeeds exactly when some car has the name; then only the first such car is replaced, otherwise the list is unchanged |
| CarStore.UpdateCarFrame | src/cpp/CarManager.cpp:101-110 | the length is kept and cars with other names are untouched |
| CarStore.DeleteCar | src/cpp/CarManager.cpp:112-120 | removes every car with the name and reports whether any was there |
| CarStore.DeleteCarSpec | src/cpp/CarManager.cpp:113-115 | the result is an order-preserving subsequence with no car of that name, every other car keeps its count, and success means the list shrank |
| CarStore.SearchCars | src/cpp/CarManager.cpp:122-141 | keeps, in order and with their counts, exactly the cars whose selected field contains the query, ignoring ASCII case |
| CarStore.SearchUnrecognisedField | src/cpp/CarManager.cpp:127-138 | with an unknown field name, an empty query keeps every car and any other query keeps none |
| CarStore.SearchEmptyQuery | src/cpp/CarManager.cpp:138 | an empty query keeps every car |
| CarStore.FilterCars | src/cpp/CarManager.cpp:143-153 | keeps, in order and with their counts, exactly the cars passing the type, rating, price and availability conditions |
| CarStore.FilterUnconstrained | src/cpp/CarManager.cpp:146-149 | with no type filter and `availableOnly` off, exactly the rating and price bounds select |
| CarSort.InOrderIffNotBefore | src/cpp/CarManager.cpp:157-168 | two cars are in the expected order exactly when the comparator does not put the second first |
| CarSort.NotBeforeTransitive | src/cpp/CarManager.cpp:157-168 | the comparator is a strict weak order, so `std::sort` is well defined on it |
| CarSort.SortCars | src/cpp/CarManager.cpp:155-170 | the result is a permutation of the list in which every pair is in order for the key and direction |
| CarSort.SortUnrecognised | src/cpp/CarManager.cpp:167 | an unknown key makes every two cars a tie, so every permutation of the list is in order, and the result holds the same cars |
| CarSort.SortIdempotent | src/cpp/CarManager.cpp:155-170 | sorting a list already in order returns the same cars, each position holding a car tied with the one there before |
| CarSort.OrderedArrangementsAgree | src/cpp/CarManager.cpp:157-168 | two ordered permutations of the same cars agree position by position up to ties |
| CarSort.SortDeterminedUpToTies | src/cpp/CarManager.cpp:155-170 | any permutation in order, which is any result `std::sort` may return, agrees with the model's result up to ties |
| CarFile.Fields | src/cpp/CarManager.cpp:85-88 | a saved line has twelve fields |
| CarFile.CarLine | src/cpp/CarManager.cpp:85-88 | a storable car's line holds no line end, so each car takes exactly one line |
| CarFile.SaveCars | src/cpp/CarManager.cpp:77-92 | an empty list writes an empty file, and a non-empty file ends with the last car's `endl` |
| CarFile.ParseSegments | src/cpp/CarManager.cpp:54-71 | a line becomes a car exactly when it has twelve segments; `available` is "1"; an unreadable number reads as 0 |
| CarFile.LoadLines | src/cpp/CarManager.cpp:48-72 | every well-formed line gives a car and every malformed one is skipped |
| CarFile.LoadContentAsWritten | src/cpp/CarManager.cpp:48-72 | as written: empty content gives no car, and there are never more cars than lines |
| CarFile.LoadContent | src/cpp/CarManager.cpp:48-72 | corrected: the same bounds, for the reading that keeps an empty last field |
| CarFile.LoadCarsFromFile | src/cpp/CarManager.cpp:40-75 | a file that cannot be opened leaves the list untouched; an opened one replaces it with the cars its lines give, as written; an empty one leaves no car |
| CarFile.LoadCarsFromFileCorrected | src/cpp/CarManager.cpp:40-75 | corrected: the same, reading lines with an empty last field |
| CarFile.SaveLoadRoundTrip | src/cpp/CarManager.cpp:40-92 | corrected: loading what was saved gives the same list back, for cars whose text holds no separator or line end and whose numbers read back |
| CarFile.EmptyReleaseDateDropped | src/cpp/CarManager.cpp:52-54 | as written, a car with an empty release date is saved and then lost on reload |
| CarFile.AsWrittenRoundTrip | src/cpp/CarManager.cpp:48-72 | as written, the round trip holds when every release date is non-empty |
| WorkerLoop.Dispatch | src/cpp/main.cpp:105-208 | only a successful mutation changes the list and is saved; only a successful query carries data, and only cars from the list; only the handlers without a try block can throw |
| WorkerLoop.Response | src/cpp/main.cpp:101-113 | the response echoes the id and holds the status, plus the message and the data when there are any |
| WorkerLoop.ResponseRepresentable | src/cpp/main.cpp:101-113 | a response survives a faithful wire exactly when every car it sends back holds doubles |
| WorkerLoop.Step | src/cpp/main.cpp:69-220 | an empty or placeholder command is ignored; an unparsable one is cleared; a new id is answered and remembered; anything else leaves the state alone |
| WorkerLoop.StepAnswers | src/cpp/main.cpp:92-216 | a fresh command gets its response in `result.json`, and the command slot is cleared |
| WorkerLoop.StepSkipsRepeat | src/cpp/main.cpp:93-96 | a command with the last processed id changes nothing |
| WorkerLoop.NoDoubleProcessing | src/cpp/main.cpp:93-96 | re-reading a command just handled is a no-op |
| WorkerLoop.CrashNeedsTypeError | src/cpp/main.cpp:92-99 | the worker dies only on a parsed command that is not an object, whose `id` or `action` is not a string, or whose handler reads a wrongly typed key outside its `try` |
| WorkerLoop.NonObjectCommandCrashes | src/cpp/main.cpp:92 | a command that is not an object kills the worker |
| WorkerLoop.AddSemantics | src/cpp/main.cpp:115-139 | `ADD_CAR` appends exactly when no car has the name and reports a duplicate otherwise |
| WorkerLoop.UndecodableCarRejected | src/cpp/main.cpp:135-138 | an undecodable car is caught and answered with an error, with the list unchanged |
| WorkerLoop.UpdateSemantics | src/cpp/main.cpp:141-157 | `UPDATE_CAR` succeeds exactly when a car has the name, and replaces the first such car |
| WorkerLoop.DeleteSemantics | src/cpp/main.cpp:158-172 | an empty name is refused; otherwise deletion succeeds exactly when the name is present and removes all such cars |
| WorkerLoop.DeleteBadNameCrashes | src/cpp/main.cpp:160 | a non-string `carName` is not caught |
| WorkerLoop.FilterDefaults | src/cpp/main.cpp:185-189 | absent filter keys mean any type, rating at least 0, price at most 1000000 and any availability |
| WorkerLoop.SortDefaultsAscending | src/cpp/main.cpp:197-199 | sorting is ascending unless told otherwise |
| WorkerLoop.UnknownActionRejected | src/cpp/main.cpp:205-208 | an unknown action gets an error and changes nothing |
| WorkerLoop.StepKeepsInSync | src/cpp/main.cpp:128 | after every pass the file holds exactly the saved form of the list |
| WorkerLoop.RestartRecoversList | src/cpp/CarManager.cpp:40-92 | as written: what the worker saved reads back as its list when no car has an empty release date |
| WorkerLoop.RestartRecoversListCorrected | src/cpp/CarManager.cpp:40-92 | corrected: what the worker saved reads back as its list for every storable list |
| Exchange.ClientRead | src/com/carrental/CarService.java:189-215 | an empty file reads as `{}`; otherwise the lines are joined without their line breaks |
| Exchange.PrepareCommand | src/com/carrental/CarService.java:221-233 | the map gains the fresh `id`; a `command` key becomes `action` with the same value; nothing else changes |
| Exchange.PrepareRepresentable | src/com/carrental/CarService.java:221-233 | tagging a command whose numbers are doubles keeps them doubles |
| Exchange.Await | src/com/carrental/CarService.java:259-307 | the loop ends at the first read before the deadline that parses to a map with the command's id, and times out exactly when there is none |
| Exchange.AnsweredWithinBudget | src/com/carrental/CarService.java:255-297 | with 100 ms per pass and a 10000 ms budget, an answer comes within the first hundred reads |
| Exchange.StaleReadsIgnored | src/com/carrental/CarService.java:263-291 | an empty read, the placeholder, an unparsable text or another command's response never ends the loop |
| Exchange.SendCommand | src/com/carrental/CarService.java:219-317 | the result slot is cleared before the command is written, and the command slot is cleared after a reply or a timeout; a reply always correlates |
| Exchange.ParseResponseData | src/com/carrental/CarService.java:323-385 | no response gives an empty list, and so do a non-success status and a success without data |
| Exchange.DecodeData | src/com/carrental/CarService.java:333-367 | missing or null data is the empty list; a list is accepted exactly when every element decodes |
| Exchange.ParseEncodedList | src/com/carrental/CarService.java:343-367 | a success response holding an encoded list yields that list with its image paths rewritten |
| Exchange.CheckStatus | src/com/carrental/CarService.java:389-407 | true exactly for a response whose status is "success" |
| Exchange.QueryResult | src/com/carrental/CarService.java:415-433 | a query with no reply returns an empty list |
| Exchange.MutationResult | src/com/carrental/CarService.java:441-465 | a mutation with no reply returns false |
| Exchange.GetAllCommand | src/com/carrental/CarService.java:415-419 | the worker reads the action `GET_ALL_CARS` |
| Exchange.AddCommand | src/com/carrental/CarService.java:441-453 | the worker reads `ADD_CAR` and decodes the attached car to the one given |
| Exchange.UpdateCommand | src/com/carrental/CarService.java:473-481 | the worker reads `UPDATE_CAR` and decodes the attached car to the one given |
| Exchange.DeleteCommand | src/com/carrental/CarService.java:501-507 | the worker reads `DELETE_CAR` and the name given |
| Exchange.SearchCommand | src/com/carrental/CarService.java:527-535 | the worker reads `SEARCH_CARS`, the query and the field given |
| Exchange.FilterCommand | src/com/carrental/CarService.java:557-569 | the worker reads `FILTER_CARS` and the four filter values given, whatever its defaults |
| Exchange.SortCommand | src/com/carrental/CarService.java:591-599 | the worker reads `SORT_CARS`, the key and the direction given, whatever its defaults |
| Bridge.WorkerAnswersClient | src/cpp/main.cpp:69-216 | a worker that has not seen the id answers the client's command in one pass, echoing the id, whenever the command's numbers and the list's ratings and prices are doubles |
| Bridge.ClientSeesAnswer | src/com/carrental/CarService.java:259-283 | polls that find the slot cleared, then one that finds the response, end the loop at that response |
| Bridge.ExchangeCompletes | src/com/carrental/CarService.java:219-317 | a live worker pass between the command write and the polls lets the client receive the worker's response, for any command and list whose numbers are doubles |
| Bridge.ClientParsesResponse | src/com/carrental/CarService.java:199-211 | the text the client reads back parses to the response the worker wrote, when the cars it carries hold doubles |
| Bridge.ClientReceivesList | src/com/carrental/CarService.java:323-385 | a list of cars holding doubles that the worker sends reaches the client's caller as the same list, image paths rewritten |
| Bridge.ClientReceivesStatus | src/com/carrental/CarService.java:389-407 | the boolean a mutation returns is the worker's success flag, for any response whose cars hold doubles |
| Bridge.CarCommandsAccepted | src/com/carrental/CarService.java:415-499 | the get-all, add and update commands the client builds never crash the worker |
| Bridge.DeleteCommandAccepted | src/com/carrental/CarService.java:501-507 | the delete command the client builds never crashes the worker |
| Bridge.SearchCommandAccepted | src/com/carrental/CarService.java:527-535 | the search command the client builds never crashes the worker |
| Bridge.FilterCommandAccepted | src/com/carrental/CarService.java:557-569 | the filter command the client builds never crashes the worker |
| Bridge.SortCommandAccepted | src/com/carrental/CarService.java:591-599 | the sort command the client builds never crashes the worker |
| Bridge.GetAllThroughMailbox | src/com/carrental/CarService.java:415-433 | getting all cars through the mailbox returns the worker's list, whose ratings and prices are doubles, with image paths rewritten |
| ImagePaths.ReceivedPath | src/com/carrental/CarService.java:355-363 | a path under `src/Images/` becomes `/Images/` followed by its tail, in which every further `src/Images/` is replaced as well; any other path is unchanged |
| ImagePaths.ReceivedPathPieces | src/com/carrental/CarService.java:357-361 | a stored path whose pieces are separated by `src/Images/` is received with every separator turned into `/Images/` and each piece kept |
| ImagePaths.RewriteCars | src/com/carrental/CarService.java:349-367 | every received car keeps all fields but its rewritten image path |
| ImagePaths.StorePath | src/com/carrental/AdminDashboard.java:679-682 | a `/Images/` path gains `src` in front and keeps its tail; any other path is unchanged |
| ImagePaths.StoreThenReceive | src/com/carrental/AdminDashboard.java:679-682 | a classpath path the administrator enters comes back from the worker unchanged |
| ImagePaths.ReceiveThenStore | src/com/carrental/CarService.java:355-363 | a stored path survives the trip to the client and back |
| ImagePaths.ReceivedPathIdempotent | src/com/carrental/CarService.java:357-361 | rewriting a rewritten path changes nothing |
| ImagePaths.ResourcePathAsWritten | src/com/carrental/CarListPage.java:565-571 | as written: a null or absolute path is unchanged, a `src/` path keeps its `/` and gains another, and any other path gains one `/` |
| ImagePaths.ResourcePath | src/com/carrental/CarDetailPage.java:259-266 | corrected: every normalised path is absolute; an absolute path is unchanged; a `src/` path loses the whole directory |
| ImagePaths.ResourcePathIdempotent | src/com/carrental/CarDetailPage.java:259-266 | corrected: normalising twice is normalising once |
| ImagePaths.ResourcePathOfStored | src/com/carrental/CarListPage.java:565-571 | corrected: a stored path resolves to the same `/Images/` resource the client receives |
| ImagePaths.ResourcePathAsWrittenDoublesSlash | src/com/carrental/CarDetailPage.java:262-265 | as written, `src/Images/a.jpg` becomes `//Images/a.jpg` |
| ImagePaths.ResourcePathAgreement | src/com/carrental/CarListPage.java:566-570 | the written and corrected normalisations agree on every path not under `src/` |
| CarList.ApplyFilters | src/com/carrental/CarListPage.java:714-736 | in list order, exactly the cars matching the search text, the type and the availability choice; the null guard (None, unreachable since the list starts empty and a failed load leaves it empty) displays nothing new |
| CarList.NoFiltersShowAll | src/com/carrental/CarListPage.java:725-732 | an empty search with "All Types" and "All" shows every car |
| CarList.AvailabilityPartitions | src/com/carrental/CarListPage.java:728-732 | "Available" and "Unavailable" split what "All" shows between them |
| CarList.InsertType | src/com/carrental/CarListPage.java:702-703 | adding a type keeps the list strictly ascending with the same members plus the new one |
| CarList.UniqueTypes | src/com/carrental/CarListPage.java:698-705 | the type list is strictly ascending and holds exactly the types of the cars; no list gives none |
| CarList.AscendingUnique | src/com/carrental/CarListPage.java:702-703 | two strictly ascending lists with the same members are equal, so the type list is determined by the set of types |
| CarList.Prepend | src/com/carrental/CarListPage.java:707-712 | the item comes first and the array follows unchanged |
| CarList.TypeChoices | src/com/carrental/CarListPage.java:698-736 | every type offered after "All Types" belongs to some car, and choosing it shows only cars of that type |
| WrapLayout.Place | src/com/carrental/CarListPage.java:1093-1103 | one component: an invisible one changes nothing; a visible one fits under the widest row and the row bottom, and nothing moves up |
| WrapLayout.FlowAll | src/com/carrental/CarListPage.java:1091-1104 | the loop keeps the pen state valid, never narrows the widest row or moves up, and stays on one row with no width |
| WrapLayout.FlowFits | src/com/carrental/CarListPage.java:1091-1104 | every visible component fits within the final widest row and below the final row bottom |
| WrapLayout.LayoutHoldsItems | src/com/carrental/CarListPage.java:1074-1106 | the computed size holds every visible component plus the insets |
| WrapLayout.LayoutSizeAsWritten | src/com/carrental/CarListPage.java:1074-1106 | as written: the size is at least the side insets wide and at least twice the top inset plus the bottom inset high |
| WrapLayout.LayoutSize | src/com/carrental/CarListPage.java:1074-1106 | corrected: the size is at least the insets in each direction |
| WrapLayout.FlowUnbounded | src/com/carrental/CarListPage.java:1083-1085 | with no width yet, nothing wraps: one row as wide as the components and gaps |
| WrapLayout.LayoutUnbounded | src/com/carrental/CarListPage.java:1083-1105 | corrected: with container width 0, the size is the single row's width and the tallest height, plus the insets |
| WrapLayout.FlowShift | src/com/carrental/CarListPage.java:1087-1103 | where the pen starts vertically only shifts the result, because wrapping depends on widths alone |
| WrapLayout.AsWrittenCountsTopTwice | src/com/carrental/CarListPage.java:1087 | as written, the height is the corrected height plus the top inset again |
| WrapLayout.AsWrittenTopInsetExample | src/com/carrental/CarListPage.java:1105 | one 10x10 card with a top inset of 5: the written code asks for 20 pixels where 15 are needed |
| Users.AddUser | src/com/carrental/UserStorage.java:11-17 | a known e-mail is refused and the map is unchanged; a new one is added with its password and no other entry changes |
| Users.ValidateUser | src/com/carrental/UserStorage.java:20-22 | only an existing e-mail validates, and then exactly with its stored password |
| Users.IsUserExist | src/com/carrental/UserStorage.java:25-27 | true exactly for the e-mails `addUser` refuses |
| Users.AddThenValidate | src/com/carrental/UserStorage.java:11-27 | after a successful add the pair validates; a refused add keeps the stored password |
| Users.ValidateImpliesExists | src/com/carrental/UserStorage.java:20-27 | credentials that validate belong to an existing user, with exactly one password |
| Users.GetUser | src/com/carrental/LoginPage.java:383-390 | finds the first user whose name is exactly the one given, or none when no name matches |
| Users.SignIn | src/com/carrental/LoginPage.java:301-339 | empty fields are refused first, then an unknown user or a wrong password; on success the role comes from the toggle and the route from whether the stored role agrees with it |
| Users.SessionAfter | src/com/carrental/LoginPage.java:314-315 | the session is set on every successful authentication and untouched otherwise |
| Users.SignInIffCredentials | src/com/carrental/LoginPage.java:308-313 | sign-in succeeds exactly for non-empty fields whose first user of that name holds that password |
| Users.DeniedStillLoggedIn | src/com/carrental/LoginPage.java:313-334 | a user whose stored role differs from the toggle is turned back, yet the session already names them |
| Users.ForgotPassword | src/com/carrental/LoginPage.java:553-568 | the trimmed entry must be longer than five characters and hold an `@`; the account is then found by e-mail ignoring case |
| Users.ForgotIgnoresCase | src/com/carrental/LoginPage.java:553-568 | a registered address typed in another case still finds its account |
| FormRules.EmailBuild | src/com/carrental/RegistrationPage.java:356 | every local part followed by `@` and at least two labels, the last of 2 to 4 characters, matches the e-mail pattern |
| FormRules.EmailShape | src/com/carrental/CheckoutPage.java:645 | a matching address has one `@`, a local part before it, and a dotted domain after it |
| FormRules.PhoneValidPadded | src/com/carrental/CheckoutPage.java:655-660 | digits with white space around them are a phone number exactly when there are eleven of them |
| FormRules.PhoneTrimmedAgain | src/com/carrental/CheckoutPage.java:655-660 | the check gives the same verdict on the trimmed field as on the field |
| Registration.Register | src/com/carrental/RegistrationPage.java:320-399 | a user is added exactly when every check passes and the terms are accepted, and then exactly the trimmed new user is appended; registration succeeds exactly when no message is shown |
| Registration.EveryCheckRuns | src/com/carrental/RegistrationPage.java:338-385 | each field's message appears exactly when that field fails its own check, whatever the other fields hold |
| Registration.PasswordPriority | src/com/carrental/RegistrationPage.java:370-385 | the password message names the first problem: empty password, then empty confirmation, then a mismatch |
| Registration.TakenIffMember | src/com/carrental/RegistrationPage.java:347-349 | a name is taken exactly when some user has exactly that name |
| Registration.TakenAfterAdding | src/com/carrental/RegistrationPage.java:347-349 | after a user is stored, a name is taken exactly when it was taken before or is that user's name |
| Registration.TakenIsCaseSensitive | src/com/carrental/RegistrationPage.java:347-349 | a stored name is taken, while a name differing from it only in case stays free if it was |
| Registration.LivePasswordMessage | src/com/carrental/RegistrationPage.java:450-462 | the live mismatch message appears exactly when both fields are filled in and differ |
| Registration.LiveAgreesWithSubmit | src/com/carrental/RegistrationPage.java:370-385 | with both fields filled, the live message equals the submitted one; otherwise only the submit complains |
| Admin.AddUserChecked | src/com/carrental/AdminDashboard.java:326-363 | the first failing check is reported in order; an accepted form appends exactly the trimmed user |
| Admin.FirstUser | src/com/carrental/AdminDashboard.java:374-380 | finds the first user with exactly the selected name, or none when there is none |
| Admin.EditUser | src/com/carrental/AdminDashboard.java:367-443 | an unknown name is refused; the edit is accepted exactly when the name exists and the trimmed password, full name, phone and e-mail pass the checks, and then the first user with the name (`findFirst`) becomes the trimmed form under that name, every other position unchanged |
| Admin.DeleteUser | src/com/carrental/AdminDashboard.java:445-471 | the administrator's own account is refused; a confirmed delete removes every user of that name and keeps the rest in order |
| Admin.UniquenessRulesDiffer | src/com/carrental/AdminDashboard.java:352-356 | with "Bob" registered, login finds no "bob", yet the dashboard refuses "bob" as a new name |
| Admin.ReadCarDialog | src/com/carrental/AdminDashboard.java:643-682 | both numbers must parse, then no text may be empty, the rating must lie in 0..5, the price must not be negative and the date must parse; an accepted car carries the stored image path |
| Admin.DialogPathRoundTrip | src/com/carrental/AdminDashboard.java:679-682 | an accepted classpath image path is sent in stored form and comes back as entered |
| Admin.AddCarLocal | src/com/carrental/AdminDashboard.java:684-695 | a name already in the list is refused before the service is called; the car is appended only when the service succeeds |
| Admin.EditCarLocal | src/com/carrental/AdminDashboard.java:534-549 | only the first car with the selected name takes the dialog's values, with its name kept; the change stays even if the service fails |
| Admin.EditMirrorsWorker | src/com/carrental/AdminDashboard.java:696-714 | an accepted edit leaves the client's list as the worker's own update leaves its list |
| Admin.EditKeptOnFailure | src/com/carrental/AdminDashboard.java:697-713 | when the service refuses, the client's list shows the edit anyway |
| Admin.DeleteCarLocal | src/com/carrental/AdminDashboard.java:725-750 | the local list changes only on a confirmed, successful delete, and then loses exactly the cars of that name |
| Admin.DeleteMirrorsWorker | src/com/carrental/AdminDashboard.java:742-747 | a successful delete leaves the client's list as the worker leaves its list |
| Checkout.ParseDate | src/com/carrental/CheckoutPage.java:586-592 | the empty text never parses |
| Checkout.CheckFullName | src/com/carrental/CheckoutPage.java:628-637 | valid exactly when the trimmed name is non-empty, with a message exactly when invalid |
| Checkout.CheckEmail | src/com/carrental/CheckoutPage.java:639-652 | valid exactly when the trimmed text matches the e-mail pattern, with "required" exactly for an empty field |
| Checkout.CheckPhone | src/com/carrental/CheckoutPage.java:654-667 | valid exactly when the trimmed text is eleven digits, with "required" exactly for an empty field |
| Checkout.CheckPickup | src/com/carrental/CheckoutPage.java:669-698 | valid exactly when the date parses and is not before today; only then is the return date's message refreshed |
| Checkout.CheckReturn | src/com/carrental/CheckoutPage.java:700-732 | valid exactly when both dates parse, the pickup is after 1970-01-01 and the return is not before it; the "before pickup" message appears exactly for a parsed earlier return |
| Checkout.Review | src/com/carrental/CheckoutPage.java:571-574 | the chained verdict is the four field conditions together, with the return date's own verdict left out |
| Checkout.RentalDays | src/com/carrental/CheckoutPage.java:595-599 | the rental is at least one day: the days between the dates plus one, whichever comes first |
| Checkout.RentalDaysSymmetric | src/com/carrental/CheckoutPage.java:595-599 | swapping the dates gives the same count |
| Checkout.QuoteFor | src/com/carrental/CheckoutPage.java:586-601 | a quote exactly when both dates parse, costing the daily price times the days |
| Checkout.ConfirmAsWritten | src/com/carrental/CheckoutPage.java:552-625 | as written, the form is sent back exactly when name, e-mail, phone or pickup fails, whatever the return date holds |
| Checkout.Confirm | src/com/carrental/CheckoutPage.java:552-625 | corrected: a quote exactly when the form is bookable; then today ≤ pickup ≤ return and the days are return − pickup + 1; never a parse failure |
| Checkout.EveryCheckRuns | src/com/carrental/CheckoutPage.java:569-574 | every validator runs in one press, and each label shows its own field's problem |
| Checkout.PickupInPastRefused | src/com/carrental/CheckoutPage.java:684-688 | a pickup date before today refuses the form with its message |
| Checkout.ConfirmRefinesAsWritten | src/com/carrental/CheckoutPage.java:571-574 | the written and corrected handlers agree whenever the return check passes |
| Checkout.ReturnBeforePickupBooks | src/com/carrental/CheckoutPage.java:695-697 | as written, a return date the day before pickup is flagged and still quoted for two days; the corrected handler refuses it |
| Checkout.EmptyReturnAsWritten | src/com/carrental/CheckoutPage.java:586-592 | as written, an empty return date passes validation and ends in the parse error; the corrected handler refuses it |
| CarDetail.Preview | src/com/carrental/CarDetailPage.java:382-399 | as written: the preview opens exactly when the image loaded and the preview page exists, on the page's own normalisation of the path; otherwise the failed image is reported first |
| CarDetail.PreviewUsesPagePath | src/com/carrental/CarDetailPage.java:383-391 | as written: a stored path `src/Images/…` opens `/` followed by the path without its first three characters, which still starts with `/Images/`, so the preview gets `//Images/…` |
| CarDetail.PreviewCorrected | src/com/carrental/CarDetailPage.java:382-399 | corrected: the same decisions with the corrected normalisation, always on an absolute path |
| CarDetail.PreviewCorrectedOpensResource | src/com/carrental/CarDetailPage.java:383-391 | corrected: a stored path opens its `/Images/` resource; a path not under `src/` previews exactly as written |
| CarDetail.BookNow | src/com/carrental/CarDetailPage.java:401-415 | with no logged-in user Book Now goes to the login page; otherwise it goes to checkout exactly when that page exists |
| CarDetail.CheckoutNeedsSignIn | src/com/carrental/CarDetailPage.java:402-407 | checkout is reached only with a user in the session, put there by a successful sign-in |
| Feedback.UpdateStars | src/com/carrental/FeedbackPage.java:398-406 | exactly the stars with index below the rating are lit |
| Feedback.LitCountRecoversRating | src/com/carrental/FeedbackPage.java:398-406 | counting the lit stars gives the rating back, clamped to 0..count |
| Feedback.Initial | src/com/carrental/FeedbackPage.java:22 | a fresh page has rating 0 and no star lit |
| Feedback.Step | src/com/carrental/FeedbackPage.java:181-197 | clicking star i remembers rating i + 1; entering previews i + 1 lit stars; leaving shows the remembered rating; only a click changes the rating |
| Feedback.RunKeepsValid | src/com/carrental/FeedbackPage.java:177-186 | whatever the mouse does, the rating stays in 0..5 |
| Feedback.HoverKeepsRating | src/com/carrental/FeedbackPage.java:188-196 | moving over the stars without clicking never changes the rating |
| Feedback.ExitRestores | src/com/carrental/FeedbackPage.java:193-196 | entering one star and leaving another restores the display of the remembered rating |
| Feedback.Submit | src/com/carrental/FeedbackPage.java:276-301 | a rating of 0 is refused first, then empty trimmed text; otherwise the rating and the trimmed text are submitted |
| Feedback.SubmittedRatingInRange | src/com/carrental/FeedbackPage.java:177-186 | feedback sent from a fresh page carries a rating from 1 to 5 |
| Feedback.ClickThenSubmit | src/com/carrental/FeedbackPage.java:183-185 | clicking a star and typing some text submits that star's rating |
| Text.ReplaceAll | src/com/carrental/CarService.java:361 | a replacement as long as the pattern keeps the length, and text shorter than the pattern is unchanged |
| Text.ReplaceAllFirst | src/com/carrental/CarService.java:361 | the first occurrence is replaced and the scan resumes after it |
| Text.ReplaceAllJoin | src/com/carrental/CarService.java:361 | pieces joined by the pattern come back joined by the replacement, each piece unchanged |

## Left out

- Process supervision. `CarService.initialize`/`shutdown` and the worker's start-up are not modelled. That includes the seeding in the `CarManager` constructor, the seeding in `main`, and the initial clearing of both files.
- File I/O. Files are strings. `users.dat` uses Java object serialisation and is not modelled. `UserStorage`'s map and the login page's list are separate values.
- Swing. Rendering, colours, dialogs, navigation between frames, the calendar popup, image loading and focus-lost triggers are not modelled. The validators those triggers run are the ones modelled.
- Concurrency. The model has one worker pass between the client's command write and its polls. Truly interleaved writes, and partially written files, are not modelled.
- Textual JSON. Gson and nlohmann parsing and pretty-printing are the `Wire` parameter. A faithful wire is asked to round-trip only documents whose numbers are dyadic rationals (`Json.Representable`), the values a `double` can hold; the exponent range of a `double` and decimal printing precision are not modelled. Gson turning every number into a double is not modelled.
- Cars.DecodeCars: the client's Gson binding of `List<Car>` is modelled with the worker's `fromJson` rules, which are exact only on what the worker encodes (`Cars.DecodeEncodeCars`). Gson's own leniency on other input is not modelled: it turns a number into a string field, leaves a missing field null, and lets a null element through to fail later in the image-path loop.
- Json.Describe: the error text after "Error adding car: " or "Error updating car: " stands in for nlohmann's `e.what()`; nlohmann/json is not part of this model, so only the offending key is kept and the message wording is not the library's.
- Exchange.SendCommand: never yields an `IoError`. File-system failures and thread interruption are not modelled. The UUID is a parameter.
- Exchange.Await: time is the clock value each poll observes. The sleeps are only assumed, through `Paced`, in the budget lemma.
- Checkout.RentalDays: dates are whole days. Daylight-saving days of 23 or 25 hours, which `TimeUnit` truncation would miscount, are not modelled.
- Checkout.CheckReturn: "after `new Date(0)`" is taken as a day number above 0. The time-zone offset is ignored.
- Checkout.QuoteFor: the total is the real product of price and days. Double rounding and the `%.2f` formatting are not modelled.
- Admin.ReadCarDialog: `Double.parseDouble` and `LocalDate.parse` are parameters. NaN and infinities are not separate cases.
- CarFile.ParseSegments: `std::stod` and double printing are the `NumFormat` parameter. A number that does not read back as itself is outside the round-trip lemmas.
- WrapLayout.Place: integers are unbounded. With width 0 the source substitutes `Integer.MAX_VALUE`, and the arithmetic on it could overflow. The model treats that case as "no bound".
- CarSort.SortCars: ties under `std::sort` are in unspecified order. The model's sort is stable, so only the permutation and the ordering are claimed; `CarSort.SortDeterminedUpToTies` shows every other allowed result differs only in the order of tied cars.
- Case handling is ASCII only. `toLowerCase`, `equalsIgnoreCase` and `::tolower` ignore locale and Unicode.
- The e-mail regular expression is modelled as a predicate over the text split at `@` and `.`, not as a regular-expression engine.
- Printing to the console, and the feedback page's stand-in for saving feedback, are not modelled.
- `Car.java` and `User.java` only supply the record shapes, which are the `Car` and `User` datatypes.

## Findings

| source | as written | input that shows it | evidently intended | confidence | as-written member | corrected member |
|---|---|---|---|---|---|---|
| src/cpp/CarManager.cpp:52-54 | `getline(ss, segment, '\|')` yields no segment after a trailing `\|`, so a line whose last field is empty has 11 segments and is skipped as malformed | a car with release date "" is saved, then the worker restarts | every saved car is read back | not executed; high | CarFile.EmptyReleaseDateDropped | WorkerLoop.RestartRecoversListCorrected |
| src/com/carrental/CarDetailPage.java:262-265 | `substring(3)` of `src/…` keeps the slash, and another `/` is prepended | image path `src/Images/a.jpg` gives `//Images/a.jpg`; CarService.java:357-361 rewrites `src/Images/` paths of cars from the worker, so this is reached by a car that did not come through the service (the dummy car at CarDetailPage.java:655-660) or by a `src/` path outside `src/Images/` | `/Images/a.jpg` | not executed; medium | ImagePaths.ResourcePathAsWrittenDoublesSlash | CarDetail.PreviewCorrectedOpensResource |
| src/com/carrental/CarListPage.java:1087 | the pen starts at `insets.top` and the final height adds `insets.top` again | one visible 10x10 card, top inset 5, width 0 | height 15 | not executed; high | WrapLayout.AsWrittenTopInsetExample | WrapLayout.LayoutUnbounded |
| src/com/carrental/CheckoutPage.java:574 | `validateReturnDate()`'s result is dropped, so the booking goes ahead when the return date is before the pickup date | pickup 2026-10-12, return 2026-10-11, today 2026-10-10 | the booking is refused with "Return date before pickup date." | not executed; high | Checkout.ReturnBeforePickupBooks | Checkout.Confirm |

Each finding is modelled both ways:

- **Finding 1.** `CarFile.LoadCarsFromFile` and `WorkerLoop.RestartRecoversList` follow the code as written. Their corrected twins, `CarFile.LoadCarsFromFileCorrected` and `WorkerLoop.RestartRecoversListCorrected`, read through `CarFile.LoadContent`, which keeps the empty last field.
- **Finding 2.** `CarDetail.Preview` follows the code as written, through `ImagePaths.ResourcePathAsWritten`. `CarDetail.PreviewCorrected` uses the corrected `ImagePaths.ResourcePath`. `CarListPage` has the same code at lines 565-571.
- **Finding 3.** `WrapLayout.LayoutSize` counts the top inset once.
- **Finding 4.** `Checkout.Confirm` counts the return-date verdict.

# MonoObsLog core, modelled in Dafny

MonoObsLog is a Qt desktop log for amateur astronomers. It records observing sessions, targets, equipment and observations in SQLite. This project models the parts of it that hold real logic, and proves properties of them:

- **Weekly database backups** (`DatabaseBackup`). The backup directory sits next to the database. Backup file names follow `observations_backup_yyyy-MM-dd.zip`. The latest backup is picked from a reversed name listing. A backup is due after seven days, and the check-and-create flow follows from that.
- **SIMBAD coordinate lookup** (`SimbadQuery`). This is the two-pass VOTable reader of `parseVOTableResponse`, over the event stream of `QXmlStreamReader`, plus the empty-name guard of `queryObject`.
- **Objects tab** (`ObjectsTab`). It loads the constellation stick-figure CSV, fills the object table, plots markers and constellation segments, converts the add/edit dialog input into nullable coordinates, and fills the dialog with SIMBAD coordinates after converting degrees to hours.
- **Object statistics tab** (`ObjectStats`). A pivot table of exposure seconds per object and filter type, with row totals.
- **Monthly statistics tab** (`MonthlyStats`). Exposure hours per month: ordered month keys, `MM/yyyy` labels, and the padded Y axis.
- **Observations repository** (`Observations`). Maps a joined row to `ObservationData`, including the angular separation between target and Moon. Also computes `total_exposure` and the NULL comment for inserts and updates.
- **Settings manager** (`Settings`). Seven settings fields with constructor defaults, `loadSettings` defaults, the key sets that save and default-creation write, the setters, and the `initialize` flow.
- **Numeric table sort order** (`NumericItem`). `NumericTableWidgetItem::operator<`.

The shared modules model the Qt primitives these rely on:

- `Text`: `QString::trimmed`, `split`, `join`, `toLower`, `contains` and QString ordering.
- `Numbers`: `QString::toDouble` as a decimal parser, `QString::number(int)`, `QString::number(x, 'f', 6)`, and 32-bit `int` wrap-around.
- `Dates`: Gregorian `QDate`, `daysTo`, and `yyyy-MM-dd` text.

External inputs are parameters:

- the clock, directory listings, file-system answers and file contents;
- SQL query results, given as `Rows(...)` or `Failed(error)`;
- the ephemeris `AstroCalc::getObjectInfo`;
- the trigonometric functions.

Code that loops or assigns member fields is modelled as methods with loops and `modifies` clauses. Each such method is proved equal to a specification function, and the properties are lemmas about those functions.

Two behaviours of the code are kept as written:

- An unknown angular separation is the sentinel `-1.0` (src/db/observationsrepository.cpp:70), with no separate "undefined" value.
- The Moon RA stored with an observation is in degrees (src/astrocalc.cpp:68, :99). Even so, src/db/observationsrepository.cpp:81 converts it with the same hours-to-radians formula as the object RA, and the model keeps that formula.
- Several headers disagree with their sources. `include/tabs/objectstab.h:41` differs from `src/tabs/objectstab.cpp:223`, and `include/settingsmanager.h` declares a sessions-folder-template getter and setter that `src/settingsmanager.cpp` never defines. The `.cpp` bodies are modelled.

## Model

| member | source | states |
|---|---|---|
| NumericItem.LessOfNumbers | include/numerictablewidgetitem.h:13-19 | when both cell texts convert to numbers, the order is the numeric `<` of the values |
| NumericItem.LessOfText | include/numerictablewidgetitem.h:20-24 | when either text does not convert, the order is QString `<` of the texts |
| NumericItem.LessIrreflexive | include/numerictablewidgetitem.h:11-25 | no cell sorts before itself, in either branch |
| NumericItem.LessAsymmetric | include/numerictablewidgetitem.h:16-24 | a < b implies not b < a (both orders take the same branch) |
| NumericItem.EmptySortsFirst | include/numerictablewidgetitem.h:14-23 | an empty cell does not convert, sorts before every non-empty text and after nothing |
| NumericItem.LessFormatInt | include/numerictablewidgetitem.h:14-18 | cells written by QString::number(int) sort exactly as their integers |
| NumericItem.LessFormatFixed6 | include/numerictablewidgetitem.h:14-18 | cells written with six decimals sort as the rounded values they show |
| NumericItem.MixedColumnNotTransitive | include/numerictablewidgetitem.h:16-24 | on a column mixing numbers and text the order is not transitive: "2" < "10" < "1x" < "2" |
| DatabaseBackup.BackupDirectory | src/db/databasebackup.cpp:17-23 | the backup directory's file name is ObsLogBackup and it starts with the database file's directory |
| DatabaseBackup.FileNameOfJoin | src/db/databasebackup.cpp:181 | joining a directory and a slash-free name gives a path whose file name is that name and whose prefix is the directory |
| DatabaseBackup.MatchBackupNameIff | src/db/databasebackup.cpp:67-75 | a name is recognised with capture t exactly when t has the shape dddd-dd-dd and the name is observations_backup_t.zip |
| DatabaseBackup.GetLatestBackupPath | src/db/databasebackup.cpp:25-53 | the loop collects the recognised files in listing order and returns the first full path, or "" (equals LatestBackupPath) |
| DatabaseBackup.LatestEmptyIff | src/db/databasebackup.cpp:27-49 | the result is empty exactly when the directory is missing or no file name matches the pattern |
| DatabaseBackup.Matches | src/db/databasebackup.cpp:38-44 | a name is kept exactly when it is in the listing and matches the backup pattern |
| DatabaseBackup.MatchesDescending | src/db/databasebackup.cpp:37-44 | the recognised names keep the descending order of the reversed listing |
| DatabaseBackup.BackupNameOrder | src/db/databasebackup.cpp:37 | two recognised names compare as text exactly as their dates compare in the calendar |
| DatabaseBackup.LatestIsNewest | src/db/databasebackup.cpp:37-52 | the chosen file is a recognised file of the listing and every other recognised file carries an earlier date |
| DatabaseBackup.BackupNeededIff | src/db/databasebackup.cpp:55-88 | a backup is due for an empty path, an unrecognised name or an invalid date, and otherwise exactly when today is at least seven days after the backup date |
| DatabaseBackup.RecentBackupNotNeeded | src/db/databasebackup.cpp:83-87 | a backup dated today or in the future never makes a new one due |
| DatabaseBackup.TodaysBackupRoundTrip | src/db/databasebackup.cpp:179-181 | the name built from today's date is recognised, captures today's date and makes no backup due the same day |
| DatabaseBackup.AddDaysNumber | src/db/databasebackup.cpp:85 | n days later is n day numbers later (the daysTo measure) |
| DatabaseBackup.CreateBackup | src/db/databasebackup.cpp:156-193 | a missing database fails with "Database file does not exist" and touches nothing; success needs the directory and the zip write, and ends with backupCreated(path of today's name); a failure writes nothing |
| DatabaseBackup.CheckAndBackupIfNeeded | src/db/databasebackup.cpp:195-222 | when no backup is due the result is true with only backupCheckCompleted(false); otherwise it is createBackup's result followed by backupCheckCompleted(result) |
| DatabaseBackup.NoSecondBackupSameDay | src/db/databasebackup.cpp:195-215 | once today's backup is in the directory (and every recognised name holds a valid date), no further backup is due that day |
| SimbadQuery.Client.QueryObject | src/simbadquery.cpp:17-29 | an empty name emits "Object name cannot be empty" and starts no query; any other name becomes the current one, queryStarted is emitted and a request is pending |
| SimbadQuery.FirstError | src/simbadquery.cpp:127 | the reader stops at the first error event: none before it |
| SimbadQuery.FieldListStep | src/simbadquery.cpp:130-137 | each FIELD start event appends its attributes to the field list, every other event leaves it |
| SimbadQuery.ReadFieldDeclarations | src/simbadquery.cpp:127-154 | the first pass collects the FIELD IDs in document order and leaves raFieldId and decFieldId as the ID of the last RA FIELD and the last DEC FIELD (the specification functions) |
| SimbadQuery.RaFieldIdIsLast | src/simbadquery.cpp:143-147 | the last FIELD passing the RA test (ucd contains pos.eq.ra;meta.main or lower-cased name is ra) decides raFieldId |
| SimbadQuery.RaFieldIdEmpty | src/simbadquery.cpp:121-147 | without an RA FIELD, raFieldId stays empty |
| SimbadQuery.LastRaIndex | src/simbadquery.cpp:143-147 | the position of the last RA FIELD, or -1 when there is none |
| SimbadQuery.DecFieldIdIsLast | src/simbadquery.cpp:148-152 | the last FIELD passing the DEC test in the else branch decides decFieldId |
| SimbadQuery.DecFieldIdEmpty | src/simbadquery.cpp:121-152 | without a DEC FIELD, decFieldId stays empty |
| SimbadQuery.IndexOf | src/simbadquery.cpp:161-162 | the index is the first position holding the ID, or -1 exactly when the ID is absent |
| SimbadQuery.ScanDataRows | src/simbadquery.cpp:173-211 | the second pass (rows, inner TD loop, break on the first accepted row) equals ScanRows |
| SimbadQuery.ParseVOTableResponse | src/simbadquery.cpp:115-220 | the whole parse equals ParseVOTable: false when either index is -1, else the second pass's result |
| SimbadQuery.FirstAcceptedIsFirst | src/simbadquery.cpp:194-208 | the values come from the first row that has both cells and whose two cells convert; ra and dec are overwritten by the rows before it |
| SimbadQuery.NoRowAccepted | src/simbadquery.cpp:194-219 | without an acceptable row the result is false |
| SimbadQuery.ReadRowEvents | src/simbadquery.cpp:180-191 | a row written as TR and TD elements is read back cell for cell |
| SimbadQuery.ScanTable | src/simbadquery.cpp:173-211 | on a table the second pass equals the first-acceptable-row definition |
| SimbadQuery.SkipHeader | src/simbadquery.cpp:173-177 | events that are neither TR starts nor errors are passed over |
| SimbadQuery.ErrorBeforeRows | src/simbadquery.cpp:213-217 | a reader error before any row makes the result false |
| SimbadQuery.DocumentAsWritten | src/simbadquery.cpp:115-220 | for a header followed by a table: false if either chosen ID is not found, else the first acceptable row at the looked-up columns |
| SimbadQuery.DocumentFixed | src/simbadquery.cpp:161-168 | the same document under the corrected lookup uses the positions of the last matching FIELDs |
| SimbadQuery.EmptyRaIdTakesIdlessColumn | src/simbadquery.cpp:161-168 | as written, a document with no RA FIELD but an ID-less FIELD yields true and takes that FIELD's column as RA; the corrected parser yields false |
| SimbadQuery.FixedNeedsRaField | src/simbadquery.cpp:164-168 | the corrected parser fails whenever there is no RA FIELD or no DEC FIELD |
| SimbadQuery.AsWrittenAgreesOnUniqueIds | src/simbadquery.cpp:161-162 | with distinct FIELD IDs and both FIELDs present, the as-written and corrected parsers agree |
| SimbadQuery.ParseVOTableResponseFixed | src/simbadquery.cpp:161-168 | the corrected parse equals ParseVOTableFixed |
| ObjectsTab.ParseAllSpec | src/tabs/objectstab.cpp:506-511 | the four conversions succeed together exactly when each field converts, and then hold each field's value |
| ObjectsTab.ParseAllValues | src/tabs/objectstab.cpp:507-510 | fields with known conversions give exactly those values |
| ObjectsTab.Constellations | src/tabs/objectstab.cpp:498-515 | no more segments than lines |
| ObjectsTab.LineLoaded | src/tabs/objectstab.cpp:500-513 | every line that parses is appended to the list |
| ObjectsTab.LoadedFromLine | src/tabs/objectstab.cpp:500-513 | every loaded segment comes from some line of the file |
| ObjectsTab.AllLinesLoaded | src/tabs/objectstab.cpp:498-515 | lines that all parse load as exactly their segments, in file order |
| ObjectsTab.BlankLineDropped | src/tabs/objectstab.cpp:501-502 | a line that is blank after trimming is skipped |
| ObjectsTab.WrongPartCountDropped | src/tabs/objectstab.cpp:503 | a line that does not split into exactly five parts is dropped |
| ObjectsTab.BadNumberDropped | src/tabs/objectstab.cpp:506-511 | a line whose RA or Dec part does not convert is dropped |
| ObjectsTab.ParseFormatConstellationLine | src/tabs/objectstab.cpp:501-512 | a segment written as a CSV line (plain name, six-decimal coordinates) reads back as itself with coordinates rounded to six decimals |
| ObjectsTab.LoadFormattedConstellations | src/tabs/objectstab.cpp:498-515 | loading the lines written for a list of segments gives the list back, rounded |
| ObjectsTab.ConstellationFileRoundTrip | src/tabs/objectstab.cpp:498-515 | a file joined with line breaks from written segments loads back as the rounded segments; an empty file loads as none |
| ObjectsTab.Tab.LoadConstellations | src/tabs/objectstab.cpp:488-517 | an unopenable file warns "Failed to open constellations file: <error>" and keeps the list; otherwise the list is cleared and becomes the parsed lines in order |
| ObjectsTab.Hours | src/tabs/objectstab.cpp:198-199 | degrees of right ascension divided by 15 give hours (h * 15 = degrees) |
| ObjectsTab.TableRows | src/tabs/objectstab.cpp:121-190 | one table row per object |
| ObjectsTab.TableRowAt | src/tabs/objectstab.cpp:121-190 | row k of the table shows object k |
| ObjectsTab.RowShowsObject | src/tabs/objectstab.cpp:126-187 | a row keeps id, name and comments; a coordinate cell is empty exactly for null; the RA cell reads back as the RA rounded to six decimals; the transit cell is empty when a coordinate is null and otherwise holds the ephemeris transit text for the object's position |
| ObjectsTab.RowShowsDec | src/tabs/objectstab.cpp:137 | the Dec cell reads back as the Dec rounded to six decimals |
| ObjectsTab.MarkersAreVisibleObjects | src/tabs/objectstab.cpp:143-175 | the markers are exactly the objects with both coordinates whose altitude is above 0, placed at (azimuth, altitude) with the object's name |
| ObjectsTab.CurveOfSpec | src/tabs/objectstab.cpp:197-215 | a segment is skipped exactly when both ends have altitude below 0; each drawn end is at max(0, altitude), its own altitude when not negative and 0 otherwise, with the azimuth of the RA converted to hours |
| ObjectsTab.CurvesAboveHorizon | src/tabs/objectstab.cpp:197-215 | no drawn point lies below the horizon, and there are no more curves than segments |
| ObjectsTab.Tab.PopulateTable | src/tabs/objectstab.cpp:99-221 | the table is cleared first; a load error warns "Failed to load objects: <error>" and leaves the plot alone; otherwise rows, markers and curves equal the specification functions |
| ObjectsTab.SubmitObject | src/tabs/objectstab.cpp:324-361 | the dialog is refused exactly when the trimmed name is empty; otherwise name and comments are trimmed and RA and Dec become numbers or null |
| ObjectsTab.BlankIsNull | src/tabs/objectstab.cpp:355-361 | an empty or blank coordinate is stored as null |
| ObjectsTab.CoordinateTextRoundTrip | src/tabs/objectstab.cpp:131-137 | the text a coordinate is shown with converts back to the coordinate rounded to six decimals, and "" back to null |
| ObjectsTab.EditWithoutChanges | src/tabs/objectstab.cpp:385-410 | confirming the edit dialog unchanged writes back the row's object with its coordinates rounded to six decimals |
| ObjectsTab.Tab.OnCoordinatesReceived | src/tabs/objectstab.cpp:462-479 | an open dialog's RA edit gets the RA divided by 15 with six decimals and its Dec edit the Dec with six decimals; nothing else changes |
| ObjectsTab.ReceivedCoordinatesStored | src/tabs/objectstab.cpp:462-479 | coordinates received from SIMBAD and accepted in the dialog are stored as the hours and degrees rounded to six decimals |
| ObjectStats.ExposureMapKeys | src/tabs/objectstatstab.cpp:116-124 | a (object, filter type) pair is in the map exactly when some exposure row has it |
| ObjectStats.ExposureMapLastWins | src/tabs/objectstatstab.cpp:118-124 | the map holds the exposure of the last row with each key |
| ObjectStats.MissingPairCountsZero | src/tabs/objectstatstab.cpp:157 | a pair without an exposure row counts as 0 |
| ObjectStats.CellText | src/tabs/objectstatstab.cpp:162 | a cell is empty exactly when the exposure is not positive |
| ObjectStats.TableShape | src/tabs/objectstatstab.cpp:127-165 | every row has name, one cell per filter type and the total; headers name the filter types in order; cell (r, c) shows the exposure of object r under filter type c |
| ObjectStats.ShownCell | src/tabs/objectstatstab.cpp:162 | the text shown for a non-negative exposure (empty for 0) reads back as that exposure |
| ObjectStats.CellsAddUp | src/tabs/objectstatstab.cpp:151-166 | the shown cells of a row add up to the sum of its exposures |
| ObjectStats.RowTotalAddsUp | src/tabs/objectstatstab.cpp:151-169 | the total cell reads as the sum of the values shown in the row (no negative exposures, sum within int) |
| ObjectStats.LayoutRow | src/tabs/objectstatstab.cpp:141-175 | the cell loop lays out the name, one text per filter type and the 32-bit row total (equals RowCells) |
| ObjectStats.Tab.RefreshData | src/tabs/objectstatstab.cpp:30-176 | the table is cleared first; each failed query warns with its own message and stops; no objects or no filter types leaves it empty; otherwise headers and rows equal the specification functions |
| MonthlyStats.HoursOf | src/tabs/monthlystatstab.cpp:63 | hours * 3600 = seconds |
| MonthlyStats.GetMissing | src/tabs/monthlystatstab.cpp:58 | a key not in the map has no value |
| MonthlyStats.InsertSpec | src/tabs/monthlystatstab.cpp:64 | assigning a month keeps the keys ordered, adds the key, maps it to the new value and leaves other keys unchanged |
| MonthlyStats.InsertGreatest | src/tabs/monthlystatstab.cpp:64 | a key above all present keys goes at the end |
| MonthlyStats.MonthlyDataSpec | src/tabs/monthlystatstab.cpp:58-65 | the map is ordered and holds exactly the months of the rows |
| MonthlyStats.LastRowWins | src/tabs/monthlystatstab.cpp:59-65 | a month maps to the hours of its last row |
| MonthlyStats.MonthWithoutRows | src/tabs/monthlystatstab.cpp:58-65 | a month without rows has no entry |
| MonthlyStats.AscendingRowsKeepOrder | src/tabs/monthlystatstab.cpp:46-65 | rows in ascending month order give entries in the same order |
| MonthlyStats.MonthLabelSpec | src/tabs/monthlystatstab.cpp:89-97 | a key yyyy-MM naming a real month is labelled MM/yyyy with its own digits; any other key is shown as it is |
| MonthlyStats.MaxHoursSpec | src/tabs/monthlystatstab.cpp:125-130 | the running maximum is at least 0, bounds every value, and is 0 or one of the values |
| MonthlyStats.CreateChart | src/tabs/monthlystatstab.cpp:35-149 | the loops build exactly ChartOf: the failure warning, the titled empty chart, or the bars, labels and Y range |
| MonthlyStats.ChartSpec | src/tabs/monthlystatstab.cpp:67-131 | no rows gives only the titled empty chart; otherwise one label and one bar per month in ascending order, each the month's hours, and a Y axis from 0 to at least 5% above every bar |
| MonthlyStats.SortedGet | src/tabs/monthlystatstab.cpp:83-86 | in an ordered map, looking up an entry's key gives that entry's value |
| Observations.Clamp | src/db/observationsrepository.cpp:92 | qBound(-1, x, 1): the result lies in [-1, 1] and is x when x already does |
| Observations.DegreesRange | src/db/observationsrepository.cpp:93 | an angle in [0, pi] is in [0, 180] degrees |
| Observations.SeparationRange | src/db/observationsrepository.cpp:69-94 | the separation is -1 exactly when one of the four coordinates is null, and otherwise lies in [0, 180] |
| Observations.SeparationSymmetric | src/db/observationsrepository.cpp:80-93 | swapping target and Moon does not change the separation |
| Observations.SeparationSelf | src/db/observationsrepository.cpp:80-93 | a position is 0 degrees from itself |
| Observations.AntipodalOnEquator | src/db/observationsrepository.cpp:80-93 | (0h, 0°) and (12h, 0°) are 180 degrees apart |
| Observations.MapRowSpec | src/db/observationsrepository.cpp:48-96 | a mapped row keeps the copied columns, and its separation is -1 exactly when a coordinate is null, in [0, 180] otherwise |
| Observations.ReadObservations | src/db/observationsrepository.cpp:14-99 | a failed query gives an empty list and "Query failed: <error>"; otherwise every row is mapped, in query order, with an empty message (getObservationsByObject, lines 102-183, runs the same loop) |
| Observations.TotalExposure | src/db/observationsrepository.cpp:194 | the total is the product reduced to a 32-bit int (congruent to it modulo 2^32) |
| Observations.TotalExposureFits | src/db/observationsrepository.cpp:230 | when the product fits in an int, the total is the product |
| Observations.TotalExposureOverflows | src/db/observationsrepository.cpp:194 | 46341 images of 46341 s store a negative total |
| Observations.WriteThenRead | src/db/observationsrepository.cpp:194-207 | a comment written by addObservation or updateObservation reads back unchanged through the row mapping (an empty one is stored as NULL and read as ""), and the stored total reads back as imageCount * exposureLength whenever that fits in an int |
| Settings.ToIntOfStored | src/settingsmanager.cpp:158 | an int stored in JSON reads back as itself |
| Settings.Defaults | src/settingsmanager.cpp:7-17 | the constructor values are valid C++ ints |
| Settings.SettingsManager.constructor | src/settingsmanager.cpp:7-17 | the fields start as 75, 60, 0.0, 0.0, "", "", Unknown, and uninitialised |
| Settings.ResetToDefaults | src/settingsmanager.cpp:80-86 | the database path is kept and every other field takes its default |
| Settings.SavedObject | src/settingsmanager.cpp:157-164 | save writes exactly the seven keys |
| Settings.DefaultObject | src/settingsmanager.cpp:89-96 | default creation writes the saved keys without database_path, with the same values |
| Settings.LoadMissingKeys | src/settingsmanager.cpp:143-150 | every missing key gives its default; an empty object gives the constructor values |
| Settings.LoadedValues | src/settingsmanager.cpp:143-150 | whatever the object holds, the loaded settings are valid (ints stay within int) |
| Settings.LoadSaved | src/settingsmanager.cpp:143-164 | loading what saveSettings writes restores every field |
| Settings.LoadDefaultObject | src/settingsmanager.cpp:80-96 | loading the default file gives the defaults, with an empty database path |
| Settings.SaveError | src/settingsmanager.cpp:169-182 | an error message is produced exactly when the write did not succeed |
| Settings.SaveErrorNamesStep | src/settingsmanager.cpp:169-182 | the message determines the outcome: it tells an open failure from a write failure and carries that step's error, so two different failures never give the same message |
| Settings.SettingsManager.CreateDefaultSettings | src/settingsmanager.cpp:77-117 | resets six fields, leaves the database path, writes the six-key object, and succeeds exactly when the write did |
| Settings.SettingsManager.LoadSettings | src/settingsmanager.cpp:119-153 | false with no field changed when the file is unreadable or not a JSON object; otherwise every field is loaded from the object |
| Settings.SettingsManager.SaveSettings | src/settingsmanager.cpp:155-187 | builds the seven-key object from the fields; the result and message follow the write outcome |
| Settings.SettingsManager.Initialize | src/settingsmanager.cpp:23-65 | a failed mkpath reports the directory and changes nothing; a missing file resets to defaults; an existing file is loaded; initialized is set only when both steps succeed |
| Settings.SettingsManager.SetMoonIlluminationWarningPercent | src/settingsmanager.cpp:226-232 | changes only its own field |
| Settings.SettingsManager.SetMoonAngularSeparationWarningDeg | src/settingsmanager.cpp:234-240 | changes only its own field |
| Settings.SettingsManager.SetLatitude | src/settingsmanager.cpp:242-248 | changes only its own field |
| Settings.SettingsManager.SetLongitude | src/settingsmanager.cpp:250-256 | changes only its own field |
| Settings.SettingsManager.SetDatabasePath | src/settingsmanager.cpp:258-264 | changes only its own field |
| Settings.SettingsManager.SetStyle | src/settingsmanager.cpp:266-272 | changes only its own field |
| Settings.SettingsManager.SetColorScheme | src/settingsmanager.cpp:274-280 | changes only its own field |
| Settings.SaveThenLoad | src/settingsmanager.cpp:143-164 | saving and then loading the written object leaves every setting as it was |
| Text.LowerMatches | src/simbadquery.cpp:143-148 | the lower-cased text equals a lower-case word exactly when the text is that word with any of its letters in upper case |
| Text.LowerIsRa | src/simbadquery.cpp:143 | the RA name test accepts exactly "ra", "rA", "Ra" and "RA" |
| Text.LowerIsDec | src/simbadquery.cpp:148 | the DEC name test accepts exactly the eight case variants of "dec" |
| Text.TrimSpec | src/tabs/objectstab.cpp:501 | the trimmed text is a slice of the input with only whitespace before and after it, and it neither starts nor ends with whitespace: exactly the leading and trailing whitespace is removed |
| Text.TrimIdempotent | src/tabs/objectstab.cpp:326-329 | trimming twice is trimming once |
| Text.TrimEmptyIffBlank | src/tabs/objectstab.cpp:501-502 | the trimmed text is empty exactly when the text is all whitespace |
| Text.Split | src/tabs/objectstab.cpp:503 | split gives one more part than there are separators, and no part holds the separator |
| Text.JoinSplit | src/tabs/objectstab.cpp:503 | joining the parts of a split gives the text back |
| Text.SplitJoin | src/tabs/objectstab.cpp:503 | splitting a join of separator-free parts gives the parts back |
| Text.LexLessIrreflexive | include/numerictablewidgetitem.h:23 | no text is QString-less than itself |
| Text.LexLessAsymmetric | include/numerictablewidgetitem.h:23 | a < b excludes b < a |
| Text.LexLessTransitive | include/numerictablewidgetitem.h:23 | QString `<` is transitive |
| Text.LexLessTotal | include/numerictablewidgetitem.h:23 | QString `<` is total on distinct texts |
| Text.ContainsIffOccurs | src/simbadquery.cpp:143 | contains holds exactly when the pattern occurs at some position |
| Numbers.ParseFormatInt | src/tabs/objectstatstab.cpp:162-169 | QString::number(i) converts back to i |
| Numbers.ParseFormatFixed6 | src/tabs/objectstab.cpp:131 | a number written with six decimals converts back to its rounded value |
| Numbers.BlankIsNotNumber | src/tabs/objectstab.cpp:355-361 | blank text does not convert |
| Numbers.Round6 | src/tabs/objectstab.cpp:131 | rounding to six decimals moves a value by at most half a millionth |
| Numbers.Wrap32 | src/tabs/objectstatstab.cpp:159 | a 32-bit int result congruent to the exact value modulo 2^32 |
| Numbers.Wrap32Fits | src/tabs/objectstatstab.cpp:159 | a value within int is unchanged by 32-bit wrap-around |
| Numbers.Wrap32Add | src/tabs/objectstatstab.cpp:159 | adding to a wrapped running total is the same as wrapping the full sum |
| Dates.NextDayNumber | src/db/databasebackup.cpp:85 | the next day is one day number later |
| Dates.NextDay | src/db/databasebackup.cpp:85 | the day after a valid date is a valid, later date |
| Dates.DaysInMonth | src/db/databasebackup.cpp:76 | a month has 28 to 31 days |
| Dates.DayNumberOrder | src/db/databasebackup.cpp:85 | one date is before another exactly when its day number is smaller |
| Dates.ParseFormatDate | src/db/databasebackup.cpp:179 | a date written as yyyy-MM-dd reads back as itself |
| Dates.FormatParsedDate | src/db/databasebackup.cpp:75-76 | a text that QDate::fromString reads as a date is exactly how that date is written, so yyyy-MM-dd texts and dates correspond one to one |
| Dates.DatePatternOrder | src/db/databasebackup.cpp:37 | yyyy-MM-dd texts compare as text exactly as their dates compare |

## Left out

- Network: the SIMBAD request, `handleNetworkReply`, `handleNetworkError` and `cancelQuery` are asynchronous I/O. `Client.QueryObject` models only the name guard and the state it sets.
- Floating point: `toDouble` is an exact decimal parser over reals (sign, digits, point, exponent). Binary rounding, infinity, NaN and overflow are not modelled. `QString::number(x, 'f', 6)` rounds the exact value half away from zero.
- `qSin`, `qCos`, `qAcos` and `M_PI` are parameters constrained by the identities the proofs use. The floating-point values of the separation formula are not modelled.
- `AstroCalc::getObjectInfo` is a parameter. It wraps NOVAS foreign calls, and its `hh:mm` transit text is taken as given.
- SQL: statement text, joins and `GROUP BY`/`ORDER BY` are not modelled. Query results arrive as row sequences in the order the SQL promises, and `SUM(...)` values are already ints.
- The `WHERE object_id` of `getObservationsByObject` is SQL only. Its row loop is the one `Observations.ReadObservations` models.
- File I/O: the following are outcomes passed in:
  - the settings file read and write;
  - the constellation resource read;
  - `mkpath`;
  - the libzip archive writer `createZipBackup`.
- `Settings.SettingsManager.LoadSettings`: JSON text is not parsed. The file's content arrives already classified as a JSON object, something else, or unreadable. The indented JSON text that save writes is likewise not modelled.
- The settings getters are the fields themselves. `initialize`'s settings paths (home directory plus `.MonoObsLog/settings.json`) are not modelled. The directory text is a parameter.
- Qt::ColorScheme is kept as its integer value.
- Qwt and QtCharts drawing, colours, fonts, alignment, message boxes and signal wiring are not modelled. The model keeps the texts, points, labels and values that are shown, and the warning texts.
- Text is `seq<char>`. `toLower` folds ASCII letters only. QString ordering compares characters, not UTF-16 code units.
- `QDate::currentDate` is a parameter. `DatabaseBackup.CheckAndBackupIfNeeded` passes one `today` to both clock reads: the one in `isBackupNeeded` (src/db/databasebackup.cpp:84) and the one that names the file in `createBackup` (src/db/databasebackup.cpp:179). Across midnight the source can decide on one date and name the file with the next, and the model does not capture that. `GetLatestBackupPath` receives the directory listing in `QDir::Name | QDir::Reversed` order. `QFileInfo::absoluteFilePath` is the backup directory joined with the name, without resolving a relative directory.
- `SimbadQuery.ScanDataRows`: when a TR is never closed, the source loops forever, and the model returns a `Hangs` result instead.
- `Observations.TotalExposure`: signed overflow is undefined behaviour in C++. The model takes the two's-complement wrap-around that compilers produce.
- `ObjectStats.RowTotalAddsUp` holds only while the row total fits in an `int`. Beyond that, `ObjectStats.LayoutRow` wraps the total as the source does.
- ObjectsTab.Tab.PopulateTable, ObjectsTab.TableRowAt: the rows are those before the final re-sort. `setSortingEnabled(true)` (src/tabs/objectstab.cpp:218) re-sorts the table by the header's sort column: the name column by default, and the RA and Dec columns through `NumericItem.Less`. The model states the rows in object order. The displayed order is a permutation of them that the model does not state.
- Settings.SettingsManager.SaveSettings, Settings.SettingsManager.Initialize: the success signals `settingsChanged` (src/settingsmanager.cpp:185) and `settingsInitialized` (src/settingsmanager.cpp:63) are not returned as values. Each is emitted exactly when the method returns `ok == true`. The `errorOccurred` messages are returned as `error`.
- DatabaseBackup.MatchBackupName, DatabaseBackup.MatchBackupNameIff: QRegularExpression compiles `$` without PCRE2's dollar-end-only option. So the pattern at src/db/databasebackup.cpp:34 and :67 also matches a backup name followed by one final "\n". The model recognises only the name without that newline. For such a name, `GetLatestBackupPath`, `LatestEmptyIff` and `BackupNeededIff` state the no-match outcome, where the source dates the backup.
- The objects-tab add, edit and delete handlers call `ObjectsRepository`. Only the values they bind are modelled, by `ObjectsTab.SubmitObject`. The delete confirmation is UI.
- The structural constellation and VOTable functions take the text-to-number conversion as a parameter. The methods and the top-level lemmas instantiate it with `toDouble`.

## Findings

| source | as written | input that shows it | evidently intended | confidence | as-written member | corrected member |
|---|---|---|---|---|---|---|
| src/simbadquery.cpp:161-168 | `fieldIds.indexOf(raFieldId)` runs even when no FIELD passed the RA test. `raFieldId` is then still empty and matches the first FIELD without an ID attribute. | A VOTable whose FIELDs are an ID-less `oid` and a FIELD named `DEC` with ID `d`, and one row `5`, `4`. The parse returns true with RA 5 and Dec 4. | No RA FIELD means no coordinates: the parse returns false. | high on the model; not executed | SimbadQuery.EmptyRaIdTakesIdlessColumn | SimbadQuery.ParseVOTableResponseFixed |

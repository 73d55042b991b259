# TV configuration checkers, modelled in Dafny

The repository is a set of standalone checker scripts for the configuration tree
of a TV firmware project (`/tvconfigs/...`). Each script starts from a model ini
(`model.ini`), follows the paths it declares to further ini or XML files
(`TvServIni`, `TvDefaultSettings`, `countryTvSysMap.xml`, the country lists, the
PQ OSD table, the panel and board files, ...) and reports PASS, FAIL or N/A
for one rule. Two of the scripts also rewrite files: one comments out lines
that reference missing files, the other renames the project and its models.

This project models those scripts' decision logic:

- the file tree is a map from normalised path to file text (`Files`). Reads
  return the text or say that the file is missing, so MISSING stays distinct
  from "flag absent";
- `posixpath.join`/`normpath` and the string methods the scripts use
  (`strip`, `split`, `splitlines`, `lower`, ...) are restated in `Paths` and
  `Text`. Blanks follow Python's Unicode `str.isspace`. Letter case, digits and
  word characters are ASCII only; "## Left out" lists what that misses;
- every regular expression the decisions rely on is restated as an explicit
  string predicate next to the code that uses it;
- XML parsing is an oracle returning the parsed blocks or a parse error.
  The model covers the order of the parse tiers, the first-success rule and
  the notes built from their errors;
- the scripts' own logic is modelled file by file, one module per script:
  - the shared logical-path resolvers and their per-script variants (`Resolvers`, `TvPaths`);
  - comment stripping, first-match and last-wins key/value lookups, and the section state machines (`Ini`, `Scan`, `ModelIni`, `TvServ`);
  - the country-map block engine with failure counting and deduplication (`CountryBlocks`);
  - country token normalisation;
  - the required-value tables;
  - the two line editors.

Code that updates variables in loops is modelled as methods with loop
invariants, proved against specification functions. The properties are lemmas
about those functions: round trips, idempotence, first-match and last-wins
rules, count conservation, and "PASS exactly when the failure list is empty".

## Model

| member | source | states |
|---|---|---|
| ModelIni.DeclaredPathStep | dolby_cert_check_pid12.py:192-208 | after one more line the first declaration stays; without one, the line's value (if any) becomes the declared path, resolved |
| ModelIni.DeclaredPath | dolby_cert_check_pid12.py:192-208 | a path is returned iff some comment-stripped line declares the key (first declaration wins); the resolved path is never empty |
| ModelIni.ReadDeclared | dolby_cert_check_pid12.py:228-231 | lines are read iff a path is declared and that file exists (`not path or not os.path.exists`) |
| ModelIni.PathTrace | check_CI.py:218-221 | exactly one note when the key is undeclared; `missing` holds the path iff it is declared but absent |
| TvServ.Assignment | dolby_cert_check_pid12.py:232-237 | a line assigns iff its comment-stripped form is non-blank and holds '='; the split is at the first '=', both sides trimmed |
| TvServ.AssignmentOf | dolby_cert_check_pid12.py:236 | a line `k=v` with no '=' in `k` assigns the trimmed `v` to the trimmed `k` |
| TvServ.FlagPair | dolby_cert_check_pid12.py:237-239 | a line contributes iff its upper-cased key is a target; the stored key is upper-case and in TARGET_KEYS |
| TvServ.FlagTableSpec | dolby_cert_check_pid12.py:222-240 | table keys are upper-case targets; a key is present iff some line assigns it, and holds the value of the last such line |
| TvServ.ParseFlags | dolby_cert_check_pid12.py:222-240 | the loop filling `out` yields the last-wins flag table, and an empty table when the file is undeclared or absent |
| TvServ.RuleNotes | dolby_cert_check_pid12.py:265-280 | one REQUIRED entry adds no note iff the key is present and matches; "缺少 KEY" when absent, "KEY 不符 (...)" when mismatched |
| TvServ.Notes | dolby_cert_check_pid12.py:258-281 | there are never more notes than REQUIRED entries |
| TvServ.NotesEmpty | dolby_cert_check_pid12.py:258-281 | no note at all iff every REQUIRED entry is satisfied |
| TvServ.Evaluate | dolby_cert_check_pid12.py:258-281 | the REQUIRED loop returns the per-entry notes in table order, and passed iff there are no notes iff every entry is satisfied |
| TvServ.CheckDeclared | dolby_cert_check_pid12.py:313-330 | undeclared path or absent file: fail with exactly one note; otherwise the flags are read and passed iff every REQUIRED entry is met |
| DolbyCert.CheckDolby | dolby_cert_check_pid12.py:246-330 | passes iff TvServIni exists and all five REQUIRED entries are met ("true"/"false" case-blind, numbers verbatim); passed iff no notes; 1..5 notes on failure |
| AiAipq.CheckAiAipq | ai_aipq_check.py:216-237 | passes iff the TvDefaultSettings file exists and AI and AIPQ both read "0" after strip/lower; passed iff no notes |
| AiAipq.DoubleZeroFails | ai_aipq_check.py:216-237 | the comparison is textual: "00" does not meet the AI entry |
| PicMode.RunAsWritten | pic_mode_test.py:230-281 | `run` has no return statement, so its caller always receives None |
| PicMode.Run | pic_mode_test.py:206-263 | passes iff TvServIni exists and the three keys read 9, 1 and false case-blind; an undeclared or absent file gives exactly one note; passed iff no notes |
| LowLatency.Evaluate | low_latency_ctrl_check.py:198-213 | passes iff SUPPORT_LOW_LATENCY_CTRL is present and reads "true" after strip/lower; exactly one note on failure, none on success |
| LowLatency.CheckLowLatency | low_latency_ctrl_check.py:158-213 | passes iff TvServIni exists and the flag reads true; exactly one note iff it fails |
| NetflixCert.LowerPair | check_netflix_cert.py:214-222 | a line contributes iff it assigns a non-empty trimmed key; the key is lower-cased and the value trimmed |
| NetflixCert.ParseKeyValues | check_netflix_cert.py:202-223 | the loop filling `kv` yields the last-wins lower-case key table, empty when the file is undeclared or absent |
| NetflixCert.KeyValuesSpec | check_netflix_cert.py:202-223 | every key is non-empty and lower-case and holds the value of its last assignment |
| NetflixCert.CheckFlags | check_netflix_cert.py:226-273 | without the file all three are unmet and described "N/A"; otherwise ok_pm iff the value trims to "4", ok_dpm iff "1", ok_mat iff it lowercases to "true" |
| NetflixCert.BuildResult | check_netflix_cert.py:276-293 | passes iff all three flags are ok; missing holds a declared but absent path, or the placeholder when TvServIni is undeclared |
| NetflixCert.AbsentFileFails | check_netflix_cert.py:234-239 | an undeclared or absent TvServIni never passes |
| Ci.Ci20Word | check_CI.py:203-211 | 1/true/on/yes give true, 0/false/off/no give false, any other integer gives `bool(int(v))`, anything else no answer |
| Ci.Ci20Number | check_CI.py:203-211 | on a plain number the word sets and `bool(int(v))` agree: non-zero is true |
| Ci.NumberNotWord | check_CI.py:203-206 | a digit string other than "0" and "1" is neither a true nor a false word |
| Ci.FoldNumber | check_CI.py:202 | a number reads the same after strip/lower |
| Ci.ParseSupportCi20 | check_CI.py:189-211 | no answer when the file is undeclared, absent or lacks SUPPORTCI20; otherwise the first SUPPORTCI20 value read by the word rules |
| Ci.BuildResult | check_CI.py:214-247 | result "CI 2.0" iff true, "CI 1.4.4" iff false, "N/A" iff no answer; one note when undeclared, missing when declared but absent |
| DapVirtualizerMode.ModeValue | check_dap_virtualizer_mode.py:214-225 | "0" and "1" read 0 and 1; any other value is read by `int()` |
| DapVirtualizerMode.ModeValueIsInt | check_dap_virtualizer_mode.py:214-225 | the 0/1 shortcut agrees with `int()`, so the reading is exactly `int(val)` |
| DapVirtualizerMode.ReadVirtualizerMode | check_dap_virtualizer_mode.py:203-225 | no answer when the file is undeclared, absent or lacks virtualizer_mode; otherwise the integer of the first value, if it parses |
| DapVirtualizerMode.BuildResult | check_dap_virtualizer_mode.py:228-263 | passes iff the mode is 1; the decision distinguishes not found, 1, 0 and any other value; note when undeclared, missing when absent |
| TvDefaultSettingsDialog.ParseDialogValue | check_TvDefaultSettings_Dialog.py:187-196 | None when the file is undeclared or absent; otherwise a value iff some uncommented line declares DIALOG |
| TvDefaultSettingsDialog.BuildResult | check_TvDefaultSettings_Dialog.py:199-217 | the result is the raw value when it is non-blank, else "N/A"; one note when undeclared, missing when declared but absent |
| BassTrebleCustomValue.NormalizeValue | check_isBassTrebleCustomValue.py:187-198 | None stays None; truthy words give "true", falsy words "false", anything else comes back trimmed |
| BassTrebleCustomValue.WordsDisjoint | check_isBassTrebleCustomValue.py:193-196 | no word is both truthy and falsy |
| BassTrebleCustomValue.NormalizeIdempotent | check_isBassTrebleCustomValue.py:187-198 | normalising twice equals normalising once |
| BassTrebleCustomValue.TrueStays | check_isBassTrebleCustomValue.py:193-194 | "true" is unchanged by strip/lower, so it normalises to itself |
| BassTrebleCustomValue.FalseStays | check_isBassTrebleCustomValue.py:195-196 | "false" is unchanged by strip/lower, so it normalises to itself |
| BassTrebleCustomValue.BuildResult | check_isBassTrebleCustomValue.py:201-220 | found iff the raw value exists; exactly one note iff not found; the result is the normalised value or "N/A" when that is empty or None |
| ExcludeFileFormat.ParseExcludeFileFormat | check_exclude_file_format.py:178-196 | a value iff some uncommented line declares ExcludeFileFormat (any case); it is the first such line's |
| ExcludeFileFormat.BuildResult | check_exclude_file_format.py:199-209 | passes iff the value is non-blank; the note is set iff it fails; an absent value reads "" |
| CustRetailMode.CustLine | check_cust_retail_mode.py:104-110 | a declaring line yields a trimmed, non-empty value |
| CustRetailMode.ParseModelIniForCust | check_cust_retail_mode.py:102-111 | a value iff some uncommented line declares CustRetailModeInten (any case); the first such line's, trimmed and non-empty |
| CustRetailMode.Passed | check_cust_retail_mode.py:121-122 | passes iff the key is declared, whatever its value |
| DarkDetailFlag.CheckDarkDetail | check_darkdetail_flag_pid12.py:84-105 | passes iff the value strips and lowercases to "true"; exactly one note on failure; an absent key reports "" |
| DarkDetailFlag.DarkDetailQuoted | check_darkdetail_flag_pid12.py:63-77 | a quoted isSupportDarkDetail declaration reads back without its quotes |
| DarkDetailFlag.TruePasses | check_darkdetail_flag_pid12.py:96 | a declared "true" passes |
| Gdpr.ParseIsSupportGdpr | check_GDPR.py:176-194 | the first uncommented isSupportGDPR line (any case) wins; its value holds no '"', '#' or ';' |
| Gdpr.BuildResult | check_GDPR.py:197-203 | passes iff the value is non-blank; an absent value reads "" |
| Gdpr.FalsePasses | check_GDPR.py:197-203 | only presence matters: a declared "false" passes |
| ShowPvrFlag.CheckShowPvr | check_show_pvr_flag.py:54-69 | passes iff some comment-stripped line is exactly `SHOW_PVR = false` (any case, flexible spaces); the reported line is the first such raw line, trimmed, else "N/A" |
| ShowPvrFlag.StripCommentNonBlank | check_show_pvr_flag.py:58-64 | a line whose comment-stripped form is non-empty is non-blank, so `bool(found_line)` holds once a line matched |
| ShowPvrFlag.QuotedValueRejected | check_show_pvr_flag.py:61 | a quoted value such as `"false"` never matches the setting |
| DiasProject.FindDiasTrue | check_dias_project.py:133-149 | found iff some line not starting with '#' (after whitespace) contains `DIAS_Project = true;` anywhere, any case; the text is the first such line without its "\n", else "N/A" |
| DiasProject.SemicolonCommentCounts | check_dias_project.py:141-145 | a ';'-commented line is not excluded: `; DIAS_Project = true;` is found |
| GdbsMode.ModeLine | check_gdbs_mode.py:140-143 | a `GDBS_MODE=<digits>` line yields a non-empty digit string |
| GdbsMode.ModeLineDeclared | check_gdbs_mode.py:140-143 | `GDBS_MODE=<digits>` reads back as exactly those digits |
| GdbsMode.ParseGdbsMode | check_gdbs_mode.py:135-144 | no answer when the target is unknown or absent; otherwise an answer iff some line is `GDBS_MODE=<digits>`, and it is all digits |
| GdbsMode.BuildResult | check_gdbs_mode.py:146-153 | passes iff the target exists and the mode is exactly "1" (so "01" fails); the mode reads "N/A" when absent |
| JapanOnly.TargetLine | check_japan_only.py:33-39 | a captured line is trimmed, non-empty, not a '#' comment, and holds both "COUNTRY_PATH" and '=' |
| JapanOnly.CheckJapanOnly | check_japan_only.py:22-68 | N/A iff no such line; PASS iff the first one has a quoted value whose resolved file exists and holds exactly one case-insensitive "japan"; FAIL otherwise |
| JapanOnly.NoJapanFails | check_japan_only.py:62-68 | an existing country file that never mentions japan gives FAIL |
| Cltv.BareSearch | check_cltv.py:176-178 | the unquoted fallback yields a non-empty token free of whitespace |
| Cltv.CltvLine | check_cltv.py:167-180 | a line decides only when it is not a whole-line '#' comment and holds "LaunchCLTVByCountry" and '=' |
| Cltv.ParseLaunchCltv | check_cltv.py:162-182 | a value iff some such line exists, and it is the first such line's (quoted content, else first token, else "") |
| Cltv.CltvLineQuoted | check_cltv.py:172-174 | a quoted declaration reads back as its trimmed contents |
| Cltv.Decide | check_cltv.py:208-227 | N/A iff undeclared, FAIL when the value is "", otherwise PASS iff the resolved file exists |
| GooglePairer.ParseModelKey | check_supportedDeviceGooglePairer.py:172-210 | model.ini is located through the trimming `/tvconfigs/` mapping; a missing model.ini gives N/A and one missing entry naming it; an absent key gives N/A and one missing entry naming the key; a present key gives its value verbatim |
| GooglePairer.ParseSupportedPairer | check_supportedDeviceGooglePairer.py:172-210 | for supportedDeviceGooglePairer: N/A with exactly one missing entry when model.ini or the key is absent, else the first uncommented raw value verbatim |
| DefaultLocale.ParseDefaultLocale | check_defaultLocale.py:170-210 | for defaultLocale: N/A with exactly one missing entry when model.ini or the key is absent, else the first uncommented raw value verbatim |
| PqAssets.Evaluate | check_pq_assets.py:163-219 | passes iff PQ_OSD, ICM and DBC equal their literals, PQ_PANEL_COLOR ends in ".ini" case-blind, and all four resolved files exist; the failure list names each failing condition in fixed order; summary "All checks passed" iff passed |
| PqAssets.CheckPqAssets | check_pq_assets.py:154-161 | the four values are the first uncommented case-insensitive declarations of PQ_OSD, ICM, DBC and PQ_PANEL_COLOR |
| TvConfigMheg5.FindTvConfigValue | check_tvconfig_and_mheg5.py:144-153 | a value iff some uncommented line declares TvConfig in exact case; the first such line wins |
| TvConfigMheg5.CheckTvConfigPath | check_tvconfig_and_mheg5.py:164-165 | holds iff the value is exactly one of the two allowed strings |
| TvConfigMheg5.Mheg5Path | check_tvconfig_and_mheg5.py:207 | a path is handed over iff TvConfig is declared and non-empty |
| TvConfigMheg5.CheckMheg5FlagAsWritten | check_tvconfig_and_mheg5.py:167-175 | with its guard commented out, a missing path or file raises; otherwise true iff some line is `enable_mheg5 = false` exactly or the compact form occurs anywhere |
| TvConfigMheg5.UndeclaredTvConfigRaises | check_tvconfig_and_mheg5.py:207-224 | an undeclared TvConfig makes `check_mheg5_flag(None)` raise |
| TvConfigMheg5.CheckMheg5Flag | check_tvconfig_and_mheg5.py:168-169 | with the guard restored, a missing path or file answers false, and otherwise the as-written answer |
| TypecPdMax.TrimQuotes | check_typec_pd_max.py:65 | `.strip().strip('"').strip("'")` leaves no quote at either end and is a substring of its input |
| TypecPdMax.ResolveTypec | check_typec_pd_max.py:62-73 | "" for an empty reference; otherwise the shared ordered rules after trimming whitespace and quotes |
| TypecPdMax.ParsePcbPath | check_typec_pd_max.py:80-97 | a path iff the first uncommented PcbPath declaration is non-empty, resolved by this file's resolver |
| TypecPdMax.PdMaxLine | check_typec_pd_max.py:112-117 | a matching line yields a non-empty token with no whitespace, '#' or ';' |
| TypecPdMax.ParseTypecPdMax | check_typec_pd_max.py:100-118 | no answer for a missing or absent file; otherwise an answer iff some line matches `TYPEC_PD_MAX [:=] token`, and it is a clean token |
| TypecPdMax.FirstToken | check_typec_pd_max.py:112 | `([^\s#;]+)` captures the longest prefix free of blanks and comment characters |
| TypecPdMax.FirstTokenOf | check_typec_pd_max.py:112 | a token followed by a blank or comment character is captured whole |
| Dias.ResolveTrimmed | check_dias_5k.py:152-168 | on the trimmed reference, in order: `/tvconfigs/x` goes to root/x, `/panel/x` to root/panel/x, any other absolute path is unchanged, a relative path goes under root |
| Dias.PanelLStrip | check_dias_5k.py:164-165 | `lstrip("/")` of a `/panel/...` reference drops exactly its one leading slash |
| Dias.PanelSpellingsAgree | check_dias_panel.py:42-62 | the logical, rooted and relative spellings of a panel file all name root/panel/<name> |
| Dias.PanelName | check_dias_5k.py:147-150 | the `PANEL_NAME_RE` capture (lazy group) holds no '"' |
| Dias.ParsePanelName | check_dias_5k.py:170-180 | a missing model.ini raises FileNotFoundError; no matching line raises ValueError; otherwise the quoted text of the first matching line |
| Dias.PanelNameDeclared | check_dias_5k.py:147-150 | `m_pPanelName="<v>"` followed by anything yields v |
| Dias.QuotedAtHead | check_dias_5k.py:148 | `"(.*?)"` at the start of a quoted text yields the text up to the first closing quote |
| Dias.KeyInt | check_dias_5k.py:135-139 | a line gives an integer for a key only when it starts (after blanks) with `KEY =`, any case |
| Dias.Extracted | check_dias_5k.py:182-199 | a key is in the dict iff some line gives it an integer, and it holds the integer of the first such line |
| Dias.ExtractValues | check_dias_5k.py:182-199 | the nested loops build exactly the first-integer-per-key dict |
| Dias.AddMissing | check_dias_5k.py:187-196 | for one line, each key not yet present takes the line's integer, if any; present keys keep their values |
| Dias.FirstIntSnoc | check_dias_panel.py:84-91 | one more line changes a key's value only when no earlier line gave it one |
| Dias.ExtractStepKeys | check_dias_5k.py:187-196 | after a line the dict's keys are those some line so far gives an integer for |
| Dias.ExtractStepValues | check_dias_5k.py:187-196 | after a line each key holds the integer of the first line so far that gives one |
| Dias.ExtractStep | check_dias_5k.py:187-196 | one line of the outer loop preserves the first-integer-per-key invariant |
| Dias.FirstIntegerWins | check_dias_panel.py:84-91 | a later line never overwrites a value an earlier line set |
| Dias.ErrorFor | check_dias_5k.py:204-210 | a threshold contributes no error iff its key is present and meets it; a "missing" error iff the key is absent |
| Dias.Errors | check_dias_5k.py:201-211 | at most one error per threshold; no error at all iff every threshold is met |
| Dias.ErrorsExact | check_dias_5k.py:201-211 | every unmet threshold's error is in the list, and the list holds nothing else |
| Dias.ErrorsSnoc | check_dias_5k.py:203-210 | one more threshold appends its error, if any, in THRESHOLDS order |
| Dias.Check | check_dias_5k.py:201-211 | the loop returns the errors in THRESHOLDS order, and ok iff every key is present and meets its threshold |
| Dias.Verdict5k | check_dias_5k.py:141-145 | the 5K check passes iff all three keys are present and H >= 5120, V >= 2880, R >= 60; at most 3 errors |
| Dias.VerdictPanel | check_dias_panel.py:31-35 | the panel check passes iff all three keys are present and H > 3840, V > 2160, R > 59 (R >= 60 for integers; the help text at line 110 says "> 60"); at most 3 errors |
| Dias.MissingKeyReported | check_dias_panel.py:98-101 | each key the panel file lacks adds the error naming it |
| Dias.ExitCode | check_dias_5k.py:255-308 | the exit code is 0 iff the panel was checked and passed |
| Dias.CheckPanel | check_dias_5k.py:234-308 | parse failure ends with exit 2, an absent panel file with exit 3; otherwise the values are extracted from the resolved panel file and checked, ok iff no errors |
| Dias.AllMetIff | check_dias_5k.py:201-211 | no error is reported exactly when every threshold key is present and meets its bound |
| Colorspace.NormKey | check_osdtable_colorspace.py:71 | a stored key is lower case and holds no space |
| Colorspace.NormKeyIdempotent | check_osdtable_colorspace.py:71 | normalising a key twice is normalising it once, so lookups ignore case and spaces |
| Colorspace.CutAt | check_osdtable_colorspace.py:73-76 | the cut value no longer holds the comment character, and a value without it is unchanged |
| Colorspace.CutAtKeeps | check_osdtable_colorspace.py:73-76 | cutting at one comment character adds no other character, so the `#` cut survives the `;` cut |
| Colorspace.AssignOf | check_osdtable_colorspace.py:56 | a matched assignment has a normalised key and a value free of `#` and `;` |
| Colorspace.Classify | check_osdtable_colorspace.py:58-76 | a line classified as an assignment carries a normalised key and a comment-free value |
| Colorspace.StepWellFormed | check_osdtable_colorspace.py:61-76 | one line keeps the table well formed: every section listed once, every stored key normalised |
| Colorspace.Parse | check_osdtable_colorspace.py:52-76 | the state after any lines is well formed |
| Colorspace.Kinds | check_osdtable_colorspace.py:58 | one classification per line, in order |
| Colorspace.StepLine | check_osdtable_colorspace.py:58-76 | the loop body applies exactly the step of the parse to the section list, the table and `current` |
| Colorspace.ParseSimpleIni | check_osdtable_colorspace.py:52-76 | the loop over `splitlines()` computes the table of the specification parse |
| Colorspace.Lookup | check_osdtable_colorspace.py:78-82 | a value is found exactly when the section and the key are both stored |
| Colorspace.ParseCurrent | check_osdtable_colorspace.py:62-65 | `current` is the last header seen |
| Colorspace.ParseSections | check_osdtable_colorspace.py:62-66 | a section exists exactly when some line is its header, and it is listed once however often it repeats |
| Colorspace.UndeclaredUnassigned | check_osdtable_colorspace.py:68 | assignments before any header, or under a section never opened, are not stored |
| Colorspace.ParseLookup | check_osdtable_colorspace.py:67-76 | last wins: the table holds, for each section and key, the value of the last assignment made under a header of that name |
| Colorspace.StoredKeysNormal | check_osdtable_colorspace.py:69 | every stored key is lower case without spaces |
| Colorspace.ExtractValue | check_osdtable_colorspace.py:78-82 | the value under the normalised key, None for a missing or empty section |
| Colorspace.ExtractLastAssigned | check_osdtable_colorspace.py:78-82 | looking a key up in parsed text finds the last assignment to the normalised key in that section |
| Colorspace.Candidates | check_osdtable_colorspace.py:87 | exactly the sections whose trimmed lower-case name is `misc_pq_map_cfg`, `misc_pq` or `misc_pq_map` |
| Colorspace.NonEmptyUnquoted | check_osdtable_colorspace.py:89-91 | a section value counts exactly when it is present and non-empty |
| Colorspace.MatchAtLine | check_osdtable_colorspace.py:93 | the multi-line pattern can match only at a line start |
| Colorspace.PqOsdSearchFound | check_osdtable_colorspace.py:93-95 | the fallback search returns the match of the first line start where the `PQ_OSD =` pattern matches |
| Colorspace.PqOsdSearchNone | check_osdtable_colorspace.py:93-96 | the fallback finds nothing only when the pattern matches at no line start |
| Colorspace.FindPqOsdPath | check_osdtable_colorspace.py:84-96 | the method computes the section-then-search value of the specification function |
| Colorspace.SectionPqOsdAssigned | check_osdtable_colorspace.py:89-91 | a candidate section's `pq_osd` is its last non-empty assignment, unquoted |
| Colorspace.PqOsdFromSection | check_osdtable_colorspace.py:88-91 | when some candidate section has a non-empty `pq_osd`, the path is that of the first such section in file order |
| Colorspace.PqOsdFallback | check_osdtable_colorspace.py:92-96 | when no candidate section has one, the path is what the whole-text search finds |
| Colorspace.DigitIn | check_osdtable_colorspace.py:182 | a digit value is below its base |
| Colorspace.GroupValueDigits | check_osdtable_colorspace.py:182 | plain decimal digits read as their decimal value |
| Colorspace.DecimalBody | check_osdtable_colorspace.py:182 | decimal digits without a leading zero are accepted by `int(s, 0)` with their value |
| Colorspace.IntBase0Nat | check_osdtable_colorspace.py:182 | `int(str(n), 0) == n` for every natural n |
| Colorspace.LeadingZeroRejected | check_osdtable_colorspace.py:182-184 | a decimal literal with a leading zero and a non-zero digit is rejected, as `int("010", 0)` is |
| Colorspace.ToInt | check_osdtable_colorspace.py:177-184 | a missing value converts to None |
| Colorspace.CheckColorspace | check_osdtable_colorspace.py:168-198 | a missing table gives (None, None, FAIL); otherwise each value is the converted last `ColorSpace` assignment of its section, and PASS holds exactly when both are 0 |
| Colorspace.RunColorspace | check_osdtable_colorspace.py:207-243 | model.ini missing exactly when it does not exist; "undeclared" exactly when no non-empty `PQ_OSD` is found; a checked table is the declared path mapped under root |
| Colorspace.IntToString | check_osdtable_colorspace.py:245-246 | `str(i)`: digits, with a minus sign for negatives, never "N/A" |
| Colorspace.Conditions | check_osdtable_colorspace.py:230-231 | each condition has its label, and reads N/A exactly when its value is missing or `PQ_OSD` is undeclared |
| Colorspace.ExitCode | check_osdtable_colorspace.py:216-264 | exit status 0 exactly when a table was checked, whatever its verdict |
| Memc.QuotedValue | check_ostable_memc.py:153-155 | the captured value `[^"]+` never holds a double quote |
| Memc.PqOsdLine | check_ostable_memc.py:150-155 | a `PQ_OSD` value read from a comment-stripped line holds no double quote |
| Memc.FindPqOsdValue | check_ostable_memc.py:143-156 | the value comes from the first line whose stripped form matches the case-sensitive pattern; None exactly when no line matches |
| Memc.StripCommentFixed | check_ostable_memc.py:123-127 | a comment-free line without surrounding blanks is left as it is |
| Memc.QuotedValueQuoted | check_ostable_memc.py:153 | a blank then `"v"` captures exactly `v` |
| Memc.PqOsdQuotedRoundTrip | check_ostable_memc.py:149-155 | the line `PQ_OSD = "v"` reads back as `v` |
| Memc.PqOsdBareRoundTrip | check_ostable_memc.py:149-155 | the line `PQ_OSD=v` without quotes reads back as `v` |
| Memc.StripCommentHead | check_ostable_memc.py:123-127 | a line starting with a non-blank, non-comment character keeps it first |
| Memc.PqOsdLowerCaseIgnored | check_ostable_memc.py:153 | the key is case-sensitive: `pq_osd = v` is not read |
| Memc.BalanceConcat | check_ostable_memc.py:175-182 | the brace depth of a concatenation is the sum of the depths |
| Memc.BalanceSnoc | check_ostable_memc.py:177-188 | one more character changes the depth by its own delta |
| Memc.ClosesAt | check_ostable_memc.py:183-186 | a closing position lies past the opening brace, and the span ends just before it |
| Memc.CloseBrace | check_ostable_memc.py:175-188 | the depth-counting loop returns the specification's closing brace for the '{' it starts at |
| Memc.DepthPositive | check_ostable_memc.py:177-188 | while the depth never returns to zero it stays positive |
| Memc.BalanceAfterOpen | check_ostable_memc.py:179-180 | past the opening brace the depth is one more than the balance of what follows it |
| Memc.MinDepth | check_ostable_memc.py:177-188 | the lowest prefix depth is at most zero and at most the final depth |
| Memc.MinDepthNonNeg | check_ostable_memc.py:177-188 | the lowest depth is non-negative exactly when no prefix has more '}' than '{' |
| Memc.InnerBalanced | check_ostable_memc.py:183-186 | between a '{' and the first return of its depth to zero, the character is '}' and the text inside is balanced |
| Memc.CloseOfBalanced | check_ostable_memc.py:175-188 | the brace found closes the opening one over balanced text; when none is found the depth never returns to zero |
| Memc.LastNewline | check_ostable_memc.py:169 | the position found is a newline inside the range |
| Memc.LineEndFrom | check_ostable_memc.py:169 | the `\s*$` end under MULTILINE is a newline position or the end of the text |
| Memc.HeaderEndAt | check_ostable_memc.py:169 | a header match ends after at least `[name]` |
| Memc.HeaderEnds | check_ostable_memc.py:169 | every header match ends past the search start and inside the text |
| Memc.BlockShape | check_ostable_memc.py:170-188 | a span opens right after a '{' past its header, closes at a '}', and holds balanced braces |
| Memc.NoBlock | check_ostable_memc.py:171-173 | no span exactly when no '{' follows the header or its braces never close |
| Memc.FindBlock | check_ostable_memc.py:170-188 | one header's brace search and depth count compute the specification's block |
| Memc.CollectBlocks | check_ostable_memc.py:169-189 | the loop over header matches collects the block of each match whose braces close, in order |
| Memc.IterTopBlocks | check_ostable_memc.py:162-189 | `_iter_top_blocks` returns the case-sensitive block spans of the specification |
| Memc.BlocksShape | check_ostable_memc.py:162-189 | every returned span lies after a '{', ends at a '}' and holds balanced braces |
| Memc.FirstSpan | check_ostable_memc.py:249-250 | None exactly for no spans, otherwise the first span |
| Memc.Shift | check_ostable_memc.py:213-214 | a span of the slice is moved by the slice start |
| Memc.FirstBlock | check_ostable_memc.py:198-217 | the loop returns at the first header whose block closes, and None when no block closes |
| Memc.FirstSubBlock | check_ostable_memc.py:191-217 | on the sliced body the result is the first case-blind block |
| Memc.FindSubBlock | check_ostable_memc.py:191-217 | `_find_sub_block` computes the specification's sub-block in coordinates of the whole text |
| Memc.FirstSpanShape | check_ostable_memc.py:198-217 | the first block of a body lies after a '{', ends at a '}' and holds balanced braces |
| Memc.ShiftShape | check_ostable_memc.py:196-214 | a balanced span of a slice is the same balanced span of the whole text, moved by the slice start |
| Memc.ShiftFirst | check_ostable_memc.py:213-214 | the first span moved by the slice start |
| Memc.SubBlockInside | check_ostable_memc.py:191-217 | the sub-block's braces lie inside the searched range |
| Memc.HeaderEndCaseBlind | check_ostable_memc.py:198 | under `(?i)` a header test does not depend on the case of the name |
| Memc.HeaderEndsCaseBlind | check_ostable_memc.py:198 | under `(?i)` the header matches do not depend on the case of the name |
| Memc.SubBlockCaseBlind | check_ostable_memc.py:191-217 | `dolby_bright` and `DOLBY_BRIGHT` find the same sub-block |
| Memc.Signed | check_ostable_memc.py:229 | a negated value is at most zero, an unsigned one at least zero |
| Memc.SignedDigits | check_ostable_memc.py:226-229 | only non-empty text is read as a number |
| Memc.MemcAssign | check_ostable_memc.py:226 | a read value comes from a line starting with `MEMC_Level` |
| Memc.MemcLevelOf | check_ostable_memc.py:225-229 | a read value comes from a line whose stripped form starts with `MEMC_Level` |
| Memc.MemcLevel | check_ostable_memc.py:219-232 | the value comes from some line of the range; None exactly when no line of the range matches |
| Memc.SignedDigitsNat | check_ostable_memc.py:226-229 | `str(n)` reads back as `n` |
| Memc.SignedDigitsNegative | check_ostable_memc.py:226-229 | `"-" + str(n)` reads back as `-n` |
| Memc.MemcAssignSpaced | check_ostable_memc.py:226 | blanks around the '=' are passed over |
| Memc.MemcLevelOfTrimmed | check_ostable_memc.py:225-226 | a line without surrounding blanks is read as it is |
| Memc.MemcLevelPlain | check_ostable_memc.py:224-229 | `MEMC_Level = n` reads back as `n` |
| Memc.MemcLevelNegative | check_ostable_memc.py:224-229 | `MEMC_Level = -n` reads back as `-n` |
| Memc.StripKeepsFirst | check_ostable_memc.py:225 | stripping keeps a non-blank first character |
| Memc.MemcLevelCaseSensitive | check_ostable_memc.py:226 | the key is case-sensitive: `memc_level=...` is not read |
| Memc.PathValueNested | check_ostable_memc.py:247-252 | a level found on a path comes from a line between the braces of a balanced sub-block strictly inside the first top block |
| Memc.PathLevel | check_ostable_memc.py:247-252 | one path's loop computes that path's level |
| Memc.StrictTwoPathsCheck | check_ostable_memc.py:234-263 | a missing file gives (False, None, None); otherwise A and B are the Default and VO path levels, and PASS holds exactly when both are 0 |
| Memc.RunMemc | check_ostable_memc.py:269-304 | model.ini missing ends the run; the OSD path exists only for a non-empty `PQ_OSD` and is that value resolved under root; a missing OSD file gives no values; the reported verdict holds exactly when the file exists and both levels are 0 |
| VrrQms.WordFlag | check_VRR_QMS.py:52-56 | True exactly for true/1/yes/on, False exactly for false/0/no/off, None exactly for any other word |
| VrrQms.BoolWordPlain | check_VRR_QMS.py:51 | a word without blanks, `;` or quotes is only lower-cased |
| VrrQms.ParseBoolWord | check_VRR_QMS.py:50-56 | on a plain word: True exactly for the true words, False exactly for the false words, None otherwise, ignoring case |
| VrrQms.StripPadded | check_VRR_QMS.py:51 | `strip()` removes exactly the blank padding around a trimmed text |
| VrrQms.BoolWordStages | check_VRR_QMS.py:51 | the four strips then `lower()` give the lower-cased innermost word |
| VrrQms.QuotedLineStrip | check_VRR_QMS.py:51 | blanks around `"w";` are stripped first |
| VrrQms.EnclosedStrip | check_VRR_QMS.py:51 | stripping a set removes exactly padding made of that set |
| VrrQms.SemicolonStrip | check_VRR_QMS.py:51 | `strip(';')` drops the trailing semicolon of `"w";` |
| VrrQms.QuoteStrip | check_VRR_QMS.py:51 | `strip('"')` unquotes a plain word |
| VrrQms.ParseBoolQuoted | check_VRR_QMS.py:50-56 | a padded `"w";` parses like the bare word `w` |
| VrrQms.WhitespaceNoLetters | check_VRR_QMS.py:51 | the blank characters hold no letter |
| VrrQms.LStripSetUpper | check_VRR_QMS.py:51 | left-stripping letter-free characters commutes with upper-casing |
| VrrQms.RStripSetUpper | check_VRR_QMS.py:51 | right-stripping letter-free characters commutes with upper-casing |
| VrrQms.StripSetUpper | check_VRR_QMS.py:51 | stripping letter-free characters commutes with upper-casing |
| VrrQms.LowerUpper | check_VRR_QMS.py:51 | lower-casing an upper-cased text equals lower-casing it |
| VrrQms.ParseBoolCaseBlind | check_VRR_QMS.py:50-56 | `parse_bool` does not depend on letter case |
| VrrQms.CutComments | check_VRR_QMS.py:77 | the cut line is a prefix of the raw line without `#` or `//` |
| VrrQms.CharClasses | check_VRR_QMS.py:58-59 | key characters, blanks, `=`, `"` and `[` are disjoint classes |
| VrrQms.LastEnd | check_VRR_QMS.py:58 | the position just past the last occurrence of a character, with none after it |
| VrrQms.LastEndAt | check_VRR_QMS.py:58 | the last quote at `k` gives the end `k + 1` |
| VrrQms.AssignTailUnquoted | check_VRR_QMS.py:58 | the `;?\s*$` tail holds no quote |
| VrrQms.AssignMatch | check_VRR_QMS.py:58-87 | a matched key is a non-empty run of `[A-Za-z0-9_]` |
| VrrQms.LastEndBeforeTail | check_VRR_QMS.py:58 | the closing quote before an unquoted tail is the line's last quote |
| VrrQms.AssignLine | check_VRR_QMS.py:58 | the pieces of an assignment line sit at the computed offsets |
| VrrQms.HeadScans | check_VRR_QMS.py:58 | the scans over blanks and key characters stop at the piece boundaries |
| VrrQms.AssignPiecesMatch | check_VRR_QMS.py:58 | a line assembled from blank, key, `=`, quoted value and tail matches with that key and value |
| VrrQms.AssignMatchOf | check_VRR_QMS.py:58 | `p key s1 = s2 "val" tail` matches with exactly (key, val) |
| VrrQms.AssignRejoin | check_VRR_QMS.py:58 | a line splits at its `=` and quotes into the pieces of an assignment |
| VrrQms.AssignCut | check_VRR_QMS.py:58 | the blank pieces of a scanned assignment are blank and its tail is a valid tail |
| VrrQms.AssignMatchShape | check_VRR_QMS.py:58 | every match is a line `p key s1 = s2 "val" tail` with blank padding: the converse of `AssignMatchOf` |
| VrrQms.Kinds | check_VRR_QMS.py:75-87 | one classification per line, in order |
| VrrQms.SectionAfter | check_VRR_QMS.py:79-82 | the current section is the name of some header line |
| VrrQms.ParseStep | check_VRR_QMS.py:75-105 | one more line: a header sets the section, an assignment in `SrcFunc`/`VRR` sets its flag, everything else is unchanged |
| VrrQms.ClassifyParts | check_VRR_QMS.py:77-87 | a header is tried on the cut line before an assignment; anything else is skipped |
| VrrQms.ParseModelIni | check_VRR_QMS.py:61-107 | the loop computes both flags and the EDID entries of the specification |
| VrrQms.SetsFlagPrefix | check_VRR_QMS.py:90-94 | whether a line sets a flag depends only on the lines up to it |
| VrrQms.LastAssignmentWins | check_VRR_QMS.py:90-94 | the flag is `parse_bool` of the last assignment to it inside a `SrcFunc` or `VRR` section |
| VrrQms.FlagUnset | check_VRR_QMS.py:71-94 | with no such assignment the flag stays None |
| VrrQms.EntryAtPrefix | check_VRR_QMS.py:100-105 | an entry depends only on the lines up to it |
| VrrQms.EdidLines | check_VRR_QMS.py:97-98 | exactly the lines whose value contains `edid` and ends with `.bin`, ignoring case, in increasing order |
| VrrQms.EdidsInFileOrder | check_VRR_QMS.py:96-105 | one entry per EDID line, in file order, with section, key, value and base name |
| VrrQms.InferFlag | check_VRR_QMS.py:118-126 | False exactly when `_NO_<token>` occurs, True when only `_<token>` occurs, None when neither does |
| VrrQms.NoTokenHasToken | check_VRR_QMS.py:118-121 | a name with `_NO_<token>` also contains `_<token>` |
| VrrQms.InferFlags | check_VRR_QMS.py:109-128 | each flag is inferred from the upper-cased name |
| VrrQms.NoBeatsPlain | check_VRR_QMS.py:112-121 | `_NO_VRR` beats `_VRR` when both occur |
| VrrQms.InferFlagsCaseBlind | check_VRR_QMS.py:114 | inference does not depend on the case of the file name |
| VrrQms.FlagCheck | check_VRR_QMS.py:148-172 | mismatch exactly when the name implies a value the flag lacks or contradicts, with the source's three messages |
| VrrQms.Row | check_VRR_QMS.py:142-186 | eleven cells headed by the rule; FAIL exactly when either flag mismatches; the last two cells are the VRR and QMS messages |
| VrrQms.BuildRows | check_VRR_QMS.py:137-187 | one row per EDID entry, in order |
| VrrQms.AgreeingNamePasses | check_VRR_QMS.py:148-172 | a name whose implied flags equal the declared ones passes |
| VrrQms.TokenlessNamePasses | check_VRR_QMS.py:158-172 | a name implying neither flag passes |
| VrrQms.CheckVrrQms | check_VRR_QMS.py:244-272 | None exactly when model.ini is missing; otherwise one row per EDID entry checked against the parsed flags |
| AutoPcmode.TokenDeclared | check_AUTO_PCMODE.py:181 | `PCMODE=AUTO` between word boundaries is found by the token search |
| AutoPcmode.PairAt | check_AUTO_PCMODE.py:191-193 | a pair matched at a position has a non-empty key of word characters and ends past that position |
| AutoPcmode.Pairs | check_AUTO_PCMODE.py:194-195 | every pair found has a non-empty lower-case key |
| AutoPcmode.PairsMap | check_AUTO_PCMODE.py:189-198 | the keys of the dictionary are exactly the keys of the pairs found |
| AutoPcmode.KvPairs | check_AUTO_PCMODE.py:183-199 | the `finditer` loop builds the dictionary of the pairs found, with non-empty lower-case keys |
| AutoPcmode.LastPairWins | check_AUTO_PCMODE.py:198 | a key repeated on a line keeps the value of its last pair |
| AutoPcmode.QuotedPairAt | check_AUTO_PCMODE.py:192 | `key="value"` is read as (key, value) |
| AutoPcmode.Source | check_AUTO_PCMODE.py:225-226 | a non-empty `source` wins; otherwise a non-empty `src`; otherwise nothing |
| AutoPcmode.Matched | check_AUTO_PCMODE.py:217-222 | a matched line is the non-empty comment-stripped line and holds the token |
| AutoPcmode.LineSource | check_AUTO_PCMODE.py:223-227 | a source taken from a line is non-empty |
| AutoPcmode.MatchedLinesExact | check_AUTO_PCMODE.py:216-222 | the matched lines are exactly the non-empty stripped lines holding the token, no more lines than the file has |
| AutoPcmode.SourcesBounded | check_AUTO_PCMODE.py:223-227 | at most one non-empty source per matched line |
| AutoPcmode.SourcesStep | check_AUTO_PCMODE.py:223-227 | one more matched line appends its source, if it has one |
| AutoPcmode.ScanLine | check_AUTO_PCMODE.py:217-227 | the loop body computes the line's match and its source |
| AutoPcmode.ExtractSources | check_AUTO_PCMODE.py:201-229 | the loop returns the matched lines, their count, and their sources in order |
| AutoPcmode.BuildResult | check_AUTO_PCMODE.py:232-268 | sources de-duplicated in order; "N/A" without sources, else joined by ", "; the two notes exactly in their cases; a declared but absent file is missing |
| AutoPcmode.CheckAutoPcmode | check_AUTO_PCMODE.py:275-312 | None exactly when model.ini is missing; otherwise the matches and sources of the declared defaults file, empty when it is undeclared or absent |
| AutoPcmode.SourcesReported | check_AUTO_PCMODE.py:245-253 | the reported sources are duplicate-free and are exactly the sources of the matched lines |
| FactoryMenu.EitherValue | check_factory_menu_params.py:215-222 | a line matches a parameter exactly when either spelling matches, the Facktory spelling first; the value holds no quote or comment character |
| FactoryMenu.Found | check_factory_menu_params.py:211-222 | a value is found exactly when some line matches either spelling; it holds no quote or comment character |
| FactoryMenu.ParseKeys | check_factory_menu_params.py:209-224 | the loop computes the first match of every parameter |
| FactoryMenu.ScanLine | check_factory_menu_params.py:215-222 | one line fills only the parameters still unset, and leaves the others as they were |
| FactoryMenu.FoundAll | check_factory_menu_params.py:209-224 | one result per parameter, each its first match over the lines |
| FactoryMenu.LineStep | check_factory_menu_params.py:211-222 | one loop iteration extends the results from the lines before it to the lines up to it |
| FactoryMenu.FoundStep | check_factory_menu_params.py:212-217 | a value once found stays; a blank or comment line changes nothing; otherwise the new line's match counts |
| FactoryMenu.FoundSnoc | check_factory_menu_params.py:211-222 | over one more line, the earlier value if any, else that line's value |
| FactoryMenu.MatchEitherLine | check_factory_menu_params.py:212-214 | a blank or comment-only line matches nothing; otherwise the comment-stripped line is matched |
| FactoryMenu.ParseFactoryMenuKeys | check_factory_menu_params.py:183-224 | three results, each the first value of ComboKey, Package or Activity in either spelling |
| FactoryMenu.BuildResult | check_factory_menu_params.py:227-239 | PASS exactly when all three values are non-empty; each reported value is the found one or "" |
| FactoryMenu.CheckFactoryMenu | check_factory_menu_params.py:246-277 | None exactly when model.ini is missing; otherwise PASS exactly when all three parameters are found non-empty |
| FactoryMenu.FirstDeclarationWins | check_factory_menu_params.py:215-217 | the first line that matches either spelling gives the value |
| FactoryMenu.FacktoryPlain | check_factory_menu_params.py:196-205 | each Facktory key is a plain key |
| FactoryMenu.FactoryPlain | check_factory_menu_params.py:196-205 | each Factory key is a plain key |
| FactoryMenu.PatternDistinct | check_factory_menu_params.py:196-205 | the two spellings of each parameter differ in a letter, ignoring case |
| FactoryMenu.CaseVariantPlain | check_factory_menu_params.py:219 | a case variant of a plain key is plain |
| FactoryMenu.VariantMissesOther | check_factory_menu_params.py:218-221 | a line spelled one way does not match the other spelling |
| FactoryMenu.OtherSpellingMissed | check_factory_menu_params.py:218-221 | a comment-free `Key="v"` written with the "Factory" spelling in any letter case gives no value for the "Facktory" pattern tried first |
| FactoryMenu.DeclaredValue | check_factory_menu_params.py:196-221 | `Key="v"` reads back as `v`, trimmed |
| FactoryMenu.QuotedDeclarationEitherSpelling | check_factory_menu_params.py:189-222 | `Key="v"` in either spelling and any case reads back as `v` |
| FactoryMenu.EarlierFactoryBeatsLaterFacktory | check_factory_menu_params.py:211-222 | a Factory line before a Facktory line wins: the first line decides, not the preferred spelling |
| FactoryMenu.ModelFactoryBeatsLaterFacktory | check_factory_menu_params.py:194-222 | the same holds for each of the three real parameters |
| PanelPifEye.FoundAll | check_panel_pif_eye.py:177-197 | one result per key, each its first case-blind match over the lines |
| PanelPifEye.ParseParams | check_panel_pif_eye.py:187-197 | the loop computes the first match of every key |
| PanelPifEye.ScanLine | check_panel_pif_eye.py:191-195 | one line fills only the keys still unset |
| PanelPifEye.LineStep | check_panel_pif_eye.py:187-195 | one loop iteration extends the results from the lines before it to the lines up to it |
| PanelPifEye.MissingKeys | check_panel_pif_eye.py:201 | the keys without a non-empty value, in key order; empty exactly when every value is present |
| PanelPifEye.BuildResult | check_panel_pif_eye.py:200-212 | PASS exactly when no key is missing, exactly when all three values are non-empty; each reported value is the found one or "" |
| PanelPifEye.CheckPanelPifEye | check_panel_pif_eye.py:219-245 | None exactly when model.ini is missing; otherwise PASS exactly when all three values are present, and the missing keys are listed |
| PanelPifEye.FirstDeclarationWins | check_panel_pif_eye.py:191-195 | the first matching line gives a key's value |
| PanelPifEye.ValuesClean | check_panel_pif_eye.py:182-184 | a found value holds no quote, `#` or `;` |
| Ewbs.NonCommentLine | check_EWBS.py:37-41 | a line is kept exactly when its stripped form is non-empty and not a `#` comment, and is kept stripped |
| Ewbs.NonComment | check_EWBS.py:35-41 | the kept lines are non-empty, non-comment, and no more than the file's lines |
| Ewbs.NonCommentAppend | check_EWBS.py:35-41 | filtering distributes over concatenation |
| Ewbs.Captured | check_EWBS.py:61-75 | the captured line is the first line holding the key and `=`; None exactly when no line does |
| Ewbs.CapturedAppend | check_EWBS.py:61-62 | once captured, later lines do not change the capture |
| Ewbs.BoolWord | check_EWBS.py:30 | True only on a case-blind `true`, False only on a case-blind `false` |
| Ewbs.BoolAt | check_EWBS.py:30 | a value is read only where the key starts, ignoring case |
| Ewbs.ParseBool | check_EWBS.py:25-33 | `re.search`: a value exactly when the pattern matches at some position, and it is that match's value |
| Ewbs.ParseBoolDeclared | check_EWBS.py:25-33 | `key=<b>` reads as the boolean of `b` |
| Ewbs.TrueWord | check_EWBS.py:30-33 | `true` in any case, bare or in matching quotes, reads True; an unmatched opening quote reads nothing |
| Ewbs.FalseWord | check_EWBS.py:30-33 | `false` in any case, bare or in matching quotes, reads False; an unmatched opening quote reads nothing |
| Ewbs.FalseBoolWord | check_EWBS.py:30 | `false` followed by the closing text reads False, otherwise nothing |
| Ewbs.OtherWord | check_EWBS.py:30 | a value starting with neither a quote, `t` nor `f` reads nothing |
| Ewbs.BoolAtShort | check_EWBS.py:30 | text shorter than the key reads nothing |
| Ewbs.ParseBoolEmpty | check_EWBS.py:25-33 | `key=` is captured as a flag line but reads no boolean |
| Ewbs.FlagValue | check_EWBS.py:56-71 | a flag without a line has no value |
| Ewbs.Keep | check_EWBS.py:61-74 | a line already captured is kept |
| Ewbs.ScanSnoc | check_EWBS.py:60-75 | one more kept line updates each of the four captures independently |
| Ewbs.ScanAppend | check_EWBS.py:77-79 | once all four lines are captured, further lines change nothing: the early exit is safe |
| Ewbs.NonCommentSnoc | check_EWBS.py:37-41 | one more raw line adds its stripped form when it is kept |
| Ewbs.CapturedSnoc | check_EWBS.py:61-62 | over one more line: the earlier capture, else that line when it holds the key |
| Ewbs.Take | check_EWBS.py:61-74 | the loop body updates the four captures as the specification does |
| Ewbs.ScanFlags | check_EWBS.py:56-79 | the loop with its early exit computes the captures over all kept lines |
| Ewbs.ScanDone | check_EWBS.py:77-79 | stopping once all four are captured gives the captures of the whole file |
| Ewbs.NonCommentSplit | check_EWBS.py:35-41 | the kept lines of a file are those of its prefix followed by those of its suffix |
| Ewbs.ReasonList | check_EWBS.py:92-97 | never empty; each reason appears exactly when its condition fails; the catch-all appears exactly when all three hold |
| Ewbs.EvaluateAsWritten | check_EWBS.py:87-99 | PASS exactly when isSupportEWBS reads true and the other two lines are present; on FAIL, "isEwbsSettingOn not set" appears exactly when its value is not a boolean |
| Ewbs.FallbackUnreachable | check_EWBS.py:96-97 | the catch-all reason is never given |
| Ewbs.AsWrittenMislabels | check_EWBS.py:87-95 | a present isEwbsSettingOn line without a boolean value, with another failing flag, is reported "not set" |
| Ewbs.SettingLineWithoutValue | check_EWBS.py:69-95 | such a line exists: `isEwbsSettingOn=` is captured and reads no boolean |
| Ewbs.Evaluate | check_EWBS.py:87-99 | same PASS condition; on FAIL the reasons are non-empty, never the catch-all, and each flag is reported exactly when its own PASS condition fails |
| Ewbs.EvaluateAgrees | check_EWBS.py:87-99 | the corrected evaluation gives the same verdict, and the same reasons whenever the setting line reads a boolean or is absent |
| Ewbs.CapturedWithoutValue | check_EWBS.py:69-71 | the first line naming the key is captured even when it reads no boolean |
| Ewbs.Mentioned | check_EWBS.py:110-113 | exactly the listed countries the content mentions, ignoring case, in list order |
| Ewbs.FoundCountries | check_EWBS.py:110-113 | the loop finds exactly the countries the content mentions |
| Ewbs.CountryStage | check_EWBS.py:102-125 | no COUNTRY_PATH line, a line without a quoted value, a missing file, or a found file: each exactly in its case |
| Ewbs.CountryStageFound | check_EWBS.py:103-115 | a found file lists exactly the countries its content mentions |
| Ewbs.CheckEwbs | check_EWBS.py:43-127 | the verdict is the corrected evaluation of the captured flags, and the country stage is that of the captured COUNTRY_PATH line |
| Logo.QuotedDecl | check_logo_path.py:63 | tried on the text from a line start to the end of the file, so blanks and the value may cross line ends: a quoted value holds no double quote |
| Logo.BareDecl | check_logo_path.py:69 | tried on the text from a line start, so the blanks after '=' may cross line ends: a bare value is non-empty and holds no blank, `#` or `;` |
| Logo.ExtractIniPath | check_logo_path.py:57-74 | `re.MULTILINE` search over the whole text: a path exactly when either pattern matches from some line start; the quoted pattern at its first matching line start wins, and only when it matches nowhere does the bare pattern at its first matching line start count |
| Logo.QuotedDeclaredAtStart | check_logo_path.py:63-66 | `Key=` blanks `"v"` at the head of the text gives `v` trimmed, whatever follows, even when the blanks or `v` hold line ends |
| Logo.QuotedBeatsEarlierBare | check_logo_path.py:62-72 | a quoted declaration wins over a bare one on an earlier line: the earlier line start is passed over for the quoted pattern |
| Logo.BareLineNotQuoted | check_logo_path.py:63 | a bare declaration does not match the quoted pattern |
| Logo.QuotedLine | check_logo_path.py:63-66 | `Key="v"` reads back as `v`, trimmed |
| Logo.Cleaned | check_logo_path.py:80 | the cleaned path holds no backslash |
| Logo.MapCleaned | check_logo_path.py:81-90 | each anchor, tried in order, is removed exactly; otherwise leading slashes are dropped or the path is kept |
| Logo.MapToTvconfigsRel | check_logo_path.py:77-90 | None exactly for a missing or empty value; otherwise the cleaned, de-anchored path |
| Logo.ResolveTvconfigsPath | check_logo_path.py:92-104 | no path exactly when the relative path is missing or empty; otherwise the relative path and root joined with it |
| Logo.CheckLogo | check_logo_path.py:188-201 | PASS exactly when both the power and the brand logo files exist; PASS needs both keys declared |
| Logo.AnchorRel | check_logo_path.py:83-84 | `/tvconfigs/rel` maps to `rel` |
| Logo.AnchorNotMnt | check_logo_path.py:81-84 | a `/tvconfigs/` path is not taken for the `/mnt/vendor/tvconfigs/` anchor |
| Sheets.PidSheetName | dolby_cert_check_pid12.py:31-36 | "others" without a `^\d+_` prefix; otherwise "PID_" and the prefix's value with leading zeros dropped |
| Sheets.PidSheetNameAsWritten | check_VRR_QMS.py:130-135 | "others" without a `^\d+_` prefix; otherwise "PID_" and the prefix digits as written |
| Sheets.ShortPidSheetName | check_logo_path.py:109-120 | a PID sheet exactly for a one- to three-digit prefix followed by '_', named by its value |
| Sheets.AllmSheetName | check_allm_enable.py:105-114 | at most 31 characters, always starting "PID_"; "PID_UNKNOWN" without leading digits in the stem |
| Sheets.Truncated31 | check_allm_enable.py:114 | `sheet[:31]`: at most 31 characters, keeping every prefix of up to 31 characters |
| Sheets.DigitPrefixBeforeUnderscore | check_osdtable_colorspace.py:201-203 | the part before the first '_' is all digits exactly when the stem opens with digits up to a '_' or its end |
| Sheets.ColorSpaceSheetName | check_osdtable_colorspace.py:200-205 | "PID_" and the leading digits, zeros kept, when they run to a '_' or the end of the stem; the fixed sheet otherwise |
| Resolvers.Resolve | check_ostable_memc.py:129-141 | an absolute path other than `/tvconfigs/` is returned unchanged; every other reference resolves to a non-empty path |
| Resolvers.ResolveTrimmed | check_cltv.py:143-160 | the same on the trimmed reference |
| Resolvers.ResolveTrimmedPadded | check_cltv.py:149 | blanks around a reference do not change where it resolves |
| Resolvers.ResolveTvconfigsWithin | check_ostable_memc.py:134-136 | a `/tvconfigs/` reference without ".." lands inside the absolute project root |
| Resolvers.ResolveRelativeWithin | check_ostable_memc.py:137-141 | a relative reference without ".." lands inside the absolute project root |
| Resolvers.ResolveDropTvconfigsDeclared | check_EWBS.py:11-18 | a `/tvconfigs/rel` reference lands at `rel` under the absolute root |
| Resolvers.MapTrimmed | check_allm_enable.py:84-100 | an absolute path other than `/tvconfigs/` is kept; a relative one is joined to the root |
| Resolvers.MapTrimmedExtraSlash | check_allm_enable.py:93-95 | an extra slash after `/tvconfigs/` does not move the mapped path |
| Resolvers.MapTrimmedResolves | check_allm_enable.py:84-100 | apart from extra slashes after `/tvconfigs/`, the mapping agrees with the shared resolver |
| Resolvers.NoDotDotLStrip | check_allm_enable.py:94 | removing leading slashes adds no ".." component |
| Resolvers.MapTrimmedWithin | check_allm_enable.py:93-95 | a `/tvconfigs/` reference without ".." maps inside the project root |
| Resolvers.LStripNoSlash | check_osdtable_colorspace.py:110-111 | after `lstrip("/")` the path no longer starts with '/' |
| Resolvers.UnderRootWithin | check_osdtable_colorspace.py:98-112 | every reference without ".." is placed inside the absolute root |
| Resolvers.UnderRootDoubleSlash | check_osdtable_colorspace.py:107-109 | a `/tvconfigs//x` reference escapes the root: joining an absolute remainder discards it |
| TvPaths.Head | tvconfigs_path_check.py:61-64 | `s[:n]`: a prefix of at most n characters, all of `s` when it is short enough |
| TvPaths.SanitizeTvPath | tvconfigs_path_check.py:39-40 | a prefix of the path followed only by trailing characters, and itself not ending in one |
| TvPaths.SanitizeIdempotent | tvconfigs_path_check.py:39-40 | sanitizing twice is sanitizing once |
| TvPaths.SanitizeDropsTrailing | tvconfigs_path_check.py:39-40 | appended trailing characters are removed |
| TvPaths.MatchEnd | tvconfigs_path_check.py:22 | a match is a `/tvconfigs/` path with at least one more character, ending at a stop character or the line end |
| TvPaths.TvPathsFrom | tvconfigs_path_check.py:22 | every found reference is a `/tvconfigs/` path |
| TvPaths.TvPathsIn | tvconfigs_path_check.py:74 | `TV_PATH_RE.findall(line)`: every found reference is a `/tvconfigs/` path |
| TvPaths.NoPrefixNoPaths | tvconfigs_path_check.py:74-76 | without `/tvconfigs/` nothing is found |
| TvPaths.WholeTvPath | tvconfigs_path_check.py:22 | a line that is one reference yields exactly that reference |
| TvPaths.PathName | tvconfigs_path_check.py:44 | the name of a path holds no '/' |
| TvPaths.SuffixExtensionIs | tvconfigs_path_check.py:44 | the extension is the suffix after its dot, lower-cased, and holds no dot |
| TvPaths.ExtensionIs | tvconfigs_path_check.py:42-47 | the extension of the path before any '?' is lower case without a dot |
| TvPaths.CleanSnoc | tvconfigs_path_check.py:44 | a real name appended to a path becomes its last component |
| TvPaths.PathNameOf | tvconfigs_path_check.py:44 | the name of `dir/name` is `name` |
| TvPaths.ExtensionOf | tvconfigs_path_check.py:42-47 | `dir/stem.x?query` has extension `x` lower-cased, and is of interest when that is allowed |
| TvPaths.NoDotRejected | tvconfigs_path_check.py:45-46 | a name without a dot is never of interest |
| TvPaths.RuleIndex | tvconfigs_path_check.py:52-53 | the first rule whose prefix starts the path; none before it does |
| TvPaths.ResolveToProject | tvconfigs_path_check.py:49-56 | None exactly when no prefix of the map starts the sanitized path |
| TvPaths.DefaultResolves | tvconfigs_path_check.py:49-56 | with the default map, `/tvconfigs/rel` resolves to `rel` under the root |
| TvPaths.DefaultRejects | tvconfigs_path_check.py:49-56 | with the default map, a path not starting `/tvconfigs/` does not resolve |
| TvPaths.FirstPrefixWins | tvconfigs_path_check.py:52-55 | the first matching prefix of the map decides |
| TvPaths.DefaultWithin | tvconfigs_path_check.py:49-56 | with the default map, a reference without ".." resolves inside the root |
| TvPaths.KeyEq | tvconfigs_path_check.py:23 | the key starts at the first non-blank, which is not `;`, `#` or `=`, and runs to the first '=' within the length limit |
| TvPaths.KeyEqCompact | tvconfigs_path_check.py:23 | `key=v` finds its key at the start and its '=' right after it |
| TvconfigsPathCheck.ParseKeyValuePreview | tvconfigs_path_check.py:58-64 | no key: ("", the first 200 characters of the stripped line); with a key: a trimmed key without '='; the preview never exceeds 200 characters |
| TvconfigsPathCheck.PreviewOfPlainPair | tvconfigs_path_check.py:58-64 | `key=v`, with a key of at most 121 characters that has no '=', does not start with a blank, ';' or '#' and does not end in a blank, and a value with no surrounding blanks, previews as exactly (key, first 200 characters of v) |
| TvconfigsPathCheck.Numbered | tvconfigs_path_check.py:69 | `enumerate(f, start=1)`: each line with its 1-based number |
| TvconfigsPathCheck.ScanLine | tvconfigs_path_check.py:70-94 | one line's references are those of the specification |
| TvconfigsPathCheck.ScanIniForTvPaths | tvconfigs_path_check.py:66-95 | the loop over the file's lines returns exactly the specification's references |
| TvconfigsPathCheck.PathRefOk | tvconfigs_path_check.py:84-94 | a recorded reference carries its file, line, key, preview and raw path, and its existence flag is that of the resolved path |
| TvconfigsPathCheck.LineRefsOrigin | tvconfigs_path_check.py:74-94 | every reference of a line is one of its `/tvconfigs/` paths, with the line's key and preview |
| TvconfigsPathCheck.LineRefsFrom | tvconfigs_path_check.py:69-94 | every reference of line i comes from line i |
| TvconfigsPathCheck.IniRefsFrom | tvconfigs_path_check.py:66-95 | every reference comes from a non-comment line of the file holding that path |
| TvconfigsPathCheck.IniRefsComplete | tvconfigs_path_check.py:66-95 | every path of interest that resolves, on a non-comment line, is reported with its line number |
| TvconfigsPathCheck.IndentLength | tvconfigs_path_check.py:108 | the length of the leading spaces and tabs |
| TvconfigsPathCheck.CommentLineText | tvconfigs_path_check.py:107-115 | unchanged exactly for a blank or comment line; otherwise `# ` inserted after the indentation |
| TvconfigsPathCheck.CommentedIsComment | tvconfigs_path_check.py:107-115 | a commented line is a comment line |
| TvconfigsPathCheck.CommentLineTextIdempotent | tvconfigs_path_check.py:107-115 | commenting twice is commenting once |
| TvconfigsPathCheck.ChompOneLine | tvconfigs_path_check.py:149 | `rstrip("\n")` of one line removes at most its final newline |
| TvconfigsPathCheck.LineEditCommentStart | tvconfigs_path_check.py:146-148 | a line already starting with `#` or `;` is skipped |
| TvconfigsPathCheck.CommentStartText | tvconfigs_path_check.py:146-148 | a skipped line is a comment line |
| TvconfigsPathCheck.UncommentedText | tvconfigs_path_check.py:146-149 | a line whose text is neither blank nor a comment does not start as a comment after its indentation, so the loop does not skip it |
| TvconfigsPathCheck.CommentedText | tvconfigs_path_check.py:146-149 | once commented, the same line starts as a comment and would be skipped |
| TvconfigsPathCheck.LineEditChanges | tvconfigs_path_check.py:145-153 | an uncommented line gets `# ` after its indentation, its newline kept, and the result starts a comment |
| TvconfigsPathCheck.LineEditIs | tvconfigs_path_check.py:145-153 | a line is edited exactly when it is not blank or comment; the edit inserts `# ` after the indentation and a second edit does nothing |
| TvconfigsPathCheck.LineEditWhen | tvconfigs_path_check.py:145-153 | a listed line is changed exactly when its text is neither blank nor a comment |
| TvconfigsPathCheck.Revised | tvconfigs_path_check.py:141-153 | same number of lines; a line differs only when its number is wanted and it is the line's edit |
| TvconfigsPathCheck.Changed | tvconfigs_path_check.py:141-153 | changed line numbers are wanted and inside the file |
| TvconfigsPathCheck.ReviseStep | tvconfigs_path_check.py:141-153 | taking one more line number changes at most that line, to its edit, and records the number exactly when the line changes |
| TvconfigsPathCheck.EditLines | tvconfigs_path_check.py:139-153 | the loop over the sorted line numbers yields the revised lines and, in increasing order, exactly the changed numbers |
| TvconfigsPathCheck.RevisedExactly | tvconfigs_path_check.py:150-153 | a line is different exactly when its number is recorded as changed |
| TvconfigsPathCheck.RevisedTwice | tvconfigs_path_check.py:139-155 | a second pass changes nothing and records no line |
| TvconfigsPathCheck.RevisedRelated | tvconfigs_path_check.py:145-153 | every line is either unchanged or its own edit |
| TvconfigsPathCheck.LineEditMoves | tvconfigs_path_check.py:150 | an edit always changes the line |
| TvconfigsPathCheck.CommentedExactly | tvconfigs_path_check.py:139-153 | commenting keeps the line count, and a line differs exactly when its number is recorded |
| TvconfigsPathCheck.CommentedTwice | tvconfigs_path_check.py:117-185 | commenting the missing lines twice is commenting them once |
| TvconfigsPathCheck.InsertedShape | tvconfigs_path_check.py:149 | an edited line stays one line, keeps its newline exactly when it had one, and gains no carriage return |
| TvconfigsPathCheck.EditedShape | tvconfigs_path_check.py:149 | an edited line keeps the shape of the original |
| TvconfigsPathCheck.CommentedShaped | tvconfigs_path_check.py:136-170 | the rewritten file still splits into the same kind of lines |
| TvconfigsPathCheck.SkipParents | tvconfigs_path_check.py:126 | at most one skipped parent per skip directory |
| TvconfigsPathCheck.CommentFile | tvconfigs_path_check.py:128-184 | one file's update: the new file system and, in increasing order, exactly the changed lines |
| TvconfigsPathCheck.FileStepRereads | tvconfigs_path_check.py:136-176 | after a change, the file reads back as the commented lines |
| TvconfigsPathCheck.FileStepFrame | tvconfigs_path_check.py:158-176 | only the file and its backup are written |
| TvconfigsPathCheck.RecordOnly | tvconfigs_path_check.py:128-184 | a recorded file passed the step's conditions and its lines are a non-empty part of those wanted |
| TvconfigsPathCheck.ListsSnoc | tvconfigs_path_check.py:184 | recording one more file keeps the recorded lists sorted and equal to the changed sets |
| TvconfigsPathCheck.FileStepRecords | tvconfigs_path_check.py:130-156 | a recorded file is not under a skipped directory, and its changed lines are a non-empty part of those wanted |
| TvconfigsPathCheck.CommentOutMissingLines | tvconfigs_path_check.py:117-185 | the loop over the grouped files computes the specification's file system and modification map |
| TvconfigsPathCheck.RecordedChanged | tvconfigs_path_check.py:117-185 | every recorded file was grouped, is not skipped, and has a non-empty subset of its wanted lines |
| TvconfigsPathCheck.OthersUntouched | tvconfigs_path_check.py:117-185 | a file neither grouped nor a backup is unchanged |
| TvconfigsPathCheck.SkippedUntouched | tvconfigs_path_check.py:129-131 | a file under a skipped directory is unchanged |
| TvconfigsPathCheck.ReportExtIs | tvconfigs_path_check.py:265 | the report's extension is the resolved path's suffix without the dot, lower case |
| TvconfigsPathCheck.MissingRefs | tvconfigs_path_check.py:269 | exactly the references whose target does not exist |
| TvconfigsPathCheck.MissingExts | tvconfigs_path_check.py:271 | one extension per missing reference |
| TvconfigsPathCheck.ByCountStrictTotal | tvconfigs_path_check.py:278 | ordering by descending count, then by name, is a strict total order |
| TvconfigsPathCheck.SumCountsRows | tvconfigs_path_check.py:271-279 | the counts of the rows add up to the occurrences of their keys |
| TvconfigsPathCheck.SortedNoDup | tvconfigs_path_check.py:278 | a strictly sorted list has no duplicates |
| TvconfigsPathCheck.CountByExt | tvconfigs_path_check.py:271-279 | one row per distinct extension with its count, sorted by descending count then name, the counts summing to the number of extensions |
| TvconfigsPathCheck.Summarize | tvconfigs_path_check.py:268-285 | the summary's root, counts of files, references and missing ones, the sorted per-extension counts summing to the missing count, and the modification totals only when something was modified |
| TvconfigsPathCheck.ChangedNoneIff | tvconfigs_path_check.py:139-155 | the list of changed lines is empty exactly when no wanted line is changed by the edit |
| AutoV.ScanRawLine | auto_v.py:72-88 | one raw line's references are those of the specification |
| AutoV.ScanIni | auto_v.py:67-89 | the loop over a file's lines returns exactly the specification's references |
| AutoV.LineRefsOfOrigin | auto_v.py:71-88 | every reference of line i comes from line i: a non-comment line holding that path of interest, resolved, with the first 200 characters of the stripped line as preview |
| AutoV.FileRefsFrom | auto_v.py:67-89 | every reference of a file comes from one of its lines |
| AutoV.FileRefsComplete | auto_v.py:67-89 | every path of interest that resolves, on a non-comment line, is reported with its line number and preview |
| AutoV.Missing | auto_v.py:113 | exactly the references whose resolved file does not exist, in order |
| AutoV.ScanAll | auto_v.py:109-113 | the loop over the ini files collects every file's references, and the missing ones among them |
| AutoV.AllRefsFrom | auto_v.py:109-111 | every collected reference comes from a line of one of the scanned files |
| AutoV.MissingFrom | auto_v.py:109-113 | every missing reference comes from a scanned line and points to a file that does not exist |
| TvMultiStandard.NormCountryName | tv_multi_standard_validation.py:34-35 | one character per character of the trimmed name, upper case, no spaces |
| TvMultiStandard.UpperCharBlank | tv_multi_standard_validation.py:35 | upper-casing neither creates nor removes a blank |
| TvMultiStandard.NormCountryNameIdempotent | tv_multi_standard_validation.py:34-35 | normalising a country name twice is normalising it once |
| TvMultiStandard.TrimRef | tv_multi_standard_validation.py:38 | the trimmed reference neither starts nor ends with a blank, quote, `;` or `)` |
| TvMultiStandard.ResolveEmptyIsRoot | tv_multi_standard_validation.py:38-40 | a reference made only of stripped characters resolves to the root |
| TvMultiStandard.ResolveFromRootWithin | tv_multi_standard_validation.py:37-45 | a reference without ".." resolves inside the absolute root |
| TvMultiStandard.ForcedCountryPath | tv_multi_standard_validation.py:204-206 | the country list is always root/country/<STANDARD>.ini |
| TvMultiStandard.ExtractIniPath | tv_multi_standard_validation.py:47-51 | a path exactly when the pattern matches at some '=' of the line |
| TvMultiStandard.ExtractAt | tv_multi_standard_validation.py:50 | the search's match is the one at the first '=' where the pattern matches |
| TvMultiStandard.ExtractPieces | tv_multi_standard_validation.py:47-51 | at the first '=', blanks then an optional quote then the value give the trimmed value |
| TvMultiStandard.ExtractQuoted | tv_multi_standard_validation.py:47-51 | `key= "v"` reads back as `v` |
| TvMultiStandard.ExtractBare | tv_multi_standard_validation.py:47-51 | `key= v` ending at a stop character reads back as `v` |
| TvMultiStandard.NonEmptyPath | tv_multi_standard_validation.py:68-77 | a path counts only when it is non-empty |
| TvMultiStandard.Kind | tv_multi_standard_validation.py:59-72 | a line declares at most one of tvSysMap and COUNTRY_PATH |
| TvMultiStandard.LastDeclarationWins | tv_multi_standard_validation.py:58-72 | in the `[COUNTRY]` scan, the last non-empty declaration wins |
| TvMultiStandard.NoDeclarationNone | tv_multi_standard_validation.py:55-72 | without a declaration in `[COUNTRY]` the scan finds nothing |
| TvMultiStandard.TvSysMapAndCountryPath | tv_multi_standard_validation.py:53-87 | the `[COUNTRY]` value when there is one, else the first raw line mentioning tvsysmap that yields a path; COUNTRY_PATH as the scan found it |
| TvMultiStandard.CommentedDeclarationFound | tv_multi_standard_validation.py:73-79 | the fallback reads commented-out lines too: a commented tvSysMap line supplies the path |
| TvMultiStandard.ScanLines | tv_multi_standard_validation.py:58-72 | the loop computes the `[COUNTRY]` scan |
| TvMultiStandard.FindTvSysMapAndCountryPath | tv_multi_standard_validation.py:53-87 | the two loops and the fallbacks compute both values of the specification |
| TvMultiStandard.LocalName | tv_multi_standard_validation.py:118 | the local tag name holds no '}' |
| TvMultiStandard.ReadText | tv_multi_standard_validation.py:25-32 | a missing file reads as "" |
| TvMultiStandard.CountryXmls | tv_multi_standard_validation.py:110-137 | duplicate-free, exactly the referenced XML files, in order of first reference |
| TvMultiStandard.ResolveCountryTvMapXmls | tv_multi_standard_validation.py:110-137 | the loops compute the de-duplicated list |
| TvMultiStandard.ChildText | tv_multi_standard_validation.py:150-155 | a child's text is trimmed |
| TvMultiStandard.ChildTextLast | tv_multi_standard_validation.py:150-155 | the last child with the tag gives the text |
| TvMultiStandard.MakePair | tv_multi_standard_validation.py:156-157 | a pair exactly for a non-empty country, with the name normalised and the system trimmed and upper-cased |
| TvMultiStandard.MakePairNormalised | tv_multi_standard_validation.py:156-157 | a made pair is normalised |
| TvMultiStandard.TreePairNormalised | tv_multi_standard_validation.py:146-157 | a pair from a parsed block is normalised |
| TvMultiStandard.TreePairsNormalised | tv_multi_standard_validation.py:146-158 | all pairs from a parsed tree are normalised |
| TvMultiStandard.MatchPairsNormalised | tv_multi_standard_validation.py:159-169 | all pairs from the regex fallback are normalised |
| TvMultiStandard.PairsNormalised | tv_multi_standard_validation.py:139-169 | every pair of a country XML is normalised |
| TvMultiStandard.BlockPair | tv_multi_standard_validation.py:147-157 | the loop over a block's children computes its pair |
| TvMultiStandard.ParseCountryTvPairs | tv_multi_standard_validation.py:139-169 | the loop computes the pairs of the specification |
| TvMultiStandard.CutComment | tv_multi_standard_validation.py:177 | the kept part is a prefix of the line without `;` or `#` |
| TvMultiStandard.CutCommentAt | tv_multi_standard_validation.py:177 | the line is cut at its first `;` or `#` |
| TvMultiStandard.TokenCountry | tv_multi_standard_validation.py:182-189 | nothing exactly for a blank token; otherwise a normalised name |
| TvMultiStandard.KeyedToken | tv_multi_standard_validation.py:186-189 | `key=name` yields the normalised `name` |
| TvMultiStandard.ListedCountries | tv_multi_standard_validation.py:171-174 | an empty file lists nothing |
| TvMultiStandard.ListedMembers | tv_multi_standard_validation.py:171-190 | exactly the normalised names of the non-blank tokens |
| TvMultiStandard.CutComments | tv_multi_standard_validation.py:175-178 | the loop cuts every line's comment |
| TvMultiStandard.ParseCountryList | tv_multi_standard_validation.py:171-190 | the loops compute the listed set |
| TvMultiStandard.AutoLocate | tv_multi_standard_validation.py:89-108 | the first existing fixed candidate; otherwise the first globbed file at most four components deep |
| TvMultiStandard.AutoLocateUsual | tv_multi_standard_validation.py:91-98 | an existing TvSysMap/tvSysMapCfgs.xml is chosen first |
| TvMultiStandard.AutoLocateShallow | tv_multi_standard_validation.py:99-108 | without a fixed candidate, a file is found exactly when some globbed one is shallow enough |
| TvMultiStandard.AutoLocateTvSysMap | tv_multi_standard_validation.py:89-108 | the loops compute the located file |
| TvMultiStandard.StandardOf | tv_multi_standard_validation.py:197 | the standard is upper case |
| TvMultiStandard.StandardDefault | tv_multi_standard_validation.py:197 | an empty standard is "DVB" |
| TvMultiStandard.TvSysMapChoice | tv_multi_standard_validation.py:208-214 | a declared tvSysMap is resolved and labelled "(from model.ini)"; otherwise it is auto-located and labelled "(auto)" |
| TvMultiStandard.Failure | tv_multi_standard_validation.py:216-245 | a failure has no missing countries and one detail line |
| TvMultiStandard.ComparedPasses | tv_multi_standard_validation.py:248-274 | PASS exactly when every target country is listed; targets are among all customer countries |
| TvMultiStandard.Compare | tv_multi_standard_validation.py:248-280 | the comparison report of the specification |
| TvMultiStandard.ExtendUntil | tv_multi_standard_validation.py:238-246 | the loop stops at the first missing file, and otherwise collects every file's pairs |
| TvMultiStandard.CheckCountryFiles | tv_multi_standard_validation.py:230-280 | no XML, then the first missing XML, each fail with their message; otherwise the comparison |
| TvMultiStandard.RunTvStandardCheck | tv_multi_standard_validation.py:192-280 | a missing tvSysMap, then a missing country list, each fail with their message; otherwise the XML stage |
| TvMultiStandard.NormCountryNameEnds | tv_multi_standard_validation.py:34-35 | a normalised country name neither starts nor ends with a blank |
| TvMultiStandard.TreePairs | tv_multi_standard_validation.py:146-157 | the loop over the tree's elements yields, in order, the pair of each block element that names a country |
| TvMultiStandard.CheckStages | tv_multi_standard_validation.py:215-280 | a missing tvSysMap, then a missing country list, fail with their messages; otherwise the country-file and comparison stages decide |
| TargetCountry.CountryPathLineSingle | target_country_check.py:185-187 | the lower-case COUNTRY_PATH pattern never matches what the upper-case one (under IGNORECASE) missed |
| TargetCountry.CountryPathIs | target_country_check.py:174-194 | a path is found exactly when some uncommented line declares COUNTRY_PATH, and it is the first such value, resolved |
| TargetCountry.TargetCountries | target_country_check.py:253 | no COUNTRY_PATH gives no target countries |
| TargetCountry.Compare | target_country_check.py:264-267 | missing is exactly the targets outside the global list, in target order; PASS when none is missing and some list is non-empty |
| TargetCountry.Check | target_country_check.py:229-267 | the targets come from COUNTRY_PATH, the global list from root/country/<STANDARD>.ini, and the comparison above holds |
| TargetCountry.FirstCountryPathWins | target_country_check.py:188-190 | later COUNTRY_PATH lines never replace the first one |
| TargetCountry.NothingToCompareFails | target_country_check.py:253-267 | with no COUNTRY_PATH and no global file the run fails |
| CountryList.Token | target_country_check.py:219-221 | a kept piece is shaped like a country token |
| CountryList.LineTokensShaped | target_country_check.py:214-221 | every token taken from a line is a country token |
| CountryList.ListedCountries | target_country_check.py:197-226 | no path or a missing file lists nothing; the list holds no duplicates and only country tokens |
| CountryList.ParseCountryList | target_country_check.py:197-226 | the loops compute the listed countries |
| CountryList.TokensShaped | tv_multi_standard_validation_pid5.py:203-232 | every token of the file is a country token |
| CountryList.CountryOrderKept | target_country_check.py:223-226 | de-duplication keeps first-occurrence order: more lines only extend the list |
| Ini.LineValueExclusive | tv_multi_standard_validation_pid5.py:188-196 | no uncommented line declares both tvSysMap and COUNTRY_PATH (keys with different first letters), so a line taken for the first is never needed for the second |
| Ini.KeyValueExclusive | tv_multi_standard_validation_pid5.py:191-196 | a comment-stripped line matching `^\s*tvSysMap\s*=` never also matches the COUNTRY_PATH pattern |
| MultiStandardPid5.ParseModelIniForPaths | tv_multi_standard_validation_pid5.py:175-200 | the two paths are the first declarations of tvSysMap and COUNTRY_PATH, each resolved against the root |
| MultiStandardPid5.ParseTwoKeys | tv_multi_standard_validation_pid5.py:187-198 | the loop, skipping empty lines and taking each key only while it is unset, ends with each key's first declaration resolved |
| MultiStandardPid5.MissingOf | tv_multi_standard_validation_pid5.py:241-246 | a declared path is reported missing exactly when its file does not exist |
| MultiStandardPid5.BuildResult | tv_multi_standard_validation_pid5.py:235-255 | missing holds exactly the declared paths whose file is absent; PASS exactly when both are declared and exist |
| MultiStandardPid5.Run | tv_multi_standard_validation_pid5.py:262-310 | PASS exactly when both declared files exist; targets are the countries listed under COUNTRY_PATH |
| CountryBlocks.FragmentBlocks | check_dvbs_satellite_flag.py:118-127 | the loop keeps exactly the fragments that parse to a block |
| CountryBlocks.FlagFound | check_dvbs_satellite_flag.py:64-69 | true exactly when some uncommented line contains `key=0` once blanks are removed |
| CountryBlocks.FlagState | check_dvbs_satellite_flag.py:54-75 | MISSING exactly for an absent file, no reason exactly when the flag is found, NO_FLAG otherwise |
| CountryBlocks.Failure | check_dvbs_satellite_flag.py:159-175 | only blocks of the standard fail; a blank TV_CONFIG fails with NO_FLAG; otherwise the resolved file fails exactly when its flag state has a reason |
| CountryBlocks.Failures | check_dvbs_satellite_flag.py:159-175 | there are never more failures than checked blocks |
| CountryBlocks.CheckBlock | check_dvbs_satellite_flag.py:159-175 | one block: whether it is of the standard, and its failure |
| CountryBlocks.BlocksStep | check_dvbs_satellite_flag.py:159-175 | one more block adds one to the count when it is of the standard, and its failure if any |
| CountryBlocks.CheckNextBlock | check_dvbs_satellite_flag.py:159-175 | one loop step extends the count and the failures to the next block |
| CountryBlocks.CheckBlocks | check_dvbs_satellite_flag.py:148-175 | the loop counts the blocks of the standard and collects their failures |
| CountryBlocks.Entries | check_dvbs_satellite_flag.py:182 | one `path (reason)` entry per failure, in order |
| CountryBlocks.Summary | check_dvbs_satellite_flag.py:177-182 | without dedup, the entries; with dedup, each distinct entry once with its count |
| CountryBlocks.SummaryCounts | check_ginga_flag.py:139-141 | the summary keys are sorted, are exactly the distinct entries, and their counts add up to the failures |
| DvbsSatelliteFlag.InputSource | check_dvbs_satellite_flag.py:78-87 | the first uncommented inputSource value, or "" when none is declared |
| DvbsSatelliteFlag.NormalError | check_dvbs_satellite_flag.py:101-104 | a note exactly when the strict parse raised |
| DvbsSatelliteFlag.Load | check_dvbs_satellite_flag.py:90-136 | strict blocks, else wrapped blocks, else parsed fragments; notes exactly when no block is found, then every earlier error and the final note |
| DvbsSatelliteFlag.LoadCountryBlocks | check_dvbs_satellite_flag.py:90-136 | the loop computes the loaded blocks and notes |
| DvbsSatelliteFlag.EmptyStrictParseSilent | check_dvbs_satellite_flag.py:101-135 | a strict parse that succeeds without blocks leaves no note of its own |
| DvbsSatelliteFlag.CheckXml | check_dvbs_satellite_flag.py:152-175 | the notes, count and failures of the loaded blocks |
| DvbsSatelliteFlag.CheckDvbs | check_dvbs_satellite_flag.py:139-195 | inputSource passes exactly when it holds DVBS:NULL; PASS exactly when it does and nothing fails and there is no note; a missing XML gives only its note |
| GingaFlag.ErrorNote | check_ginga_flag.py:87-96 | a note exactly when the parse raised, prefixed with the stage |
| GingaFlag.Load | check_ginga_flag.py:73-106 | strict blocks, else wrapped blocks, else parsed fragments; every parse error is noted as it happens |
| GingaFlag.LoadCountryBlocks | check_ginga_flag.py:73-106 | the loop computes the loaded blocks and notes |
| GingaFlag.StrictErrorKept | check_ginga_flag.py:87-94 | when the strict parse fails but the wrapped one finds blocks, the strict error stays in the notes |
| GingaFlag.CheckXml | check_ginga_flag.py:121-137 | the notes, count and failures of the loaded blocks |
| GingaFlag.CheckGinga | check_ginga_flag.py:109-157 | PASS exactly when nothing fails and there is no note; a missing XML gives only its note |
| HbbTv.AfterOpenName | HbbTV_Check.py:58 | a match of `<\s*NAME` ends inside the text, after its start |
| HbbTv.OpenTag | HbbTV_Check.py:58 | an opening tag `<\s*NAME\s*>` ends with '>' inside the text |
| HbbTv.CloseTag | HbbTV_Check.py:58 | a closing tag `<\s*/\s*NAME\s*>` starts with '<' and ends with '>' |
| HbbTv.ElementAt | HbbTV_Check.py:58-65 | an element match is ordered: start, inner start, closing tag, end, all inside the text |
| HbbTv.ElementFinderIsFinder | HbbTV_Check.py:58-60 | the element pattern's matches end inside the text, after their start |
| HbbTv.SearchFirst | HbbTV_Check.py:65 | `re.search`: the leftmost match at or after the position, and none exactly when no position matches |
| HbbTv.SearchAll | HbbTV_Check.py:59-60 | every match of `re.finditer` is a match of the pattern at its start |
| HbbTv.SearchAllOrdered | HbbTV_Check.py:59-60 | the matches of `re.finditer` do not overlap and come in text order |
| HbbTv.ElementStopsAtFirstClose | HbbTV_Check.py:58-65 | the lazy `.*?` stops at the first closing tag after the opening tag |
| HbbTv.SearchFirstIs | HbbTV_Check.py:65 | a match with no match before it is the one `re.search` returns |
| HbbTv.ExtractTagAbsent | HbbTV_Check.py:64-66 | a tag that never matches extracts as "" |
| HbbTv.ExtractTagFirst | HbbTV_Check.py:64-66 | the first matching element gives its trimmed inner text |
| HbbTv.FindBlocksWithSpans | HbbTV_Check.py:52-61 | the loop collects every block match with its span |
| HbbTv.FindAll | HbbTV_Check.py:52-61 | for any finder, the loop that resumes each search at the end of the previous match returns exactly the matches `finditer` gives, in order |
| HbbTv.LineNumberAt | HbbTV_Check.py:69-71 | line numbers start at 1 |
| HbbTv.LineNumberMonotone | HbbTV_Check.py:69-71 | a later index never has a smaller line number |
| HbbTv.OccurrencesPrefix | HbbTV_Check.py:71 | a longer prefix never holds fewer newlines |
| HbbTv.LineNumberStep | HbbTV_Check.py:69-71 | the line number grows by one exactly past a newline |
| HbbTv.TagStartAt | HbbTV_Check.py:122 | a `<\s*TV_CONFIG\b` match starts at the position asked about |
| HbbTv.TagStart | HbbTV_Check.py:122-123 | the tag offset lies within the block, 0 when there is no tag |
| HbbTv.TagStartFirst | HbbTV_Check.py:122-123 | a non-zero offset is the first place the tag matches |
| HbbTv.BlockFailure | HbbTV_Check.py:111-124 | a failure exactly for a DVB block whose TV_CONFIG lacks tv.config.dvb_hbbtv, on the line of its TV_CONFIG tag |
| HbbTv.Failures | HbbTV_Check.py:109-124 | there are never more failures than DVB blocks |
| HbbTv.FailuresShaped | HbbTV_Check.py:111-124 | every failure is a DVB block without the HbbTV config |
| HbbTv.Lines | HbbTV_Check.py:126 | one line number per failure, in order |
| HbbTv.ErrorLinesExact | HbbTV_Check.py:126 | the error lines are sorted without repetition and are exactly the failures' lines |
| HbbTv.CheckBlock | HbbTV_Check.py:111-124 | one block: whether it is DVB, and its failure |
| HbbTv.BlocksStep | HbbTV_Check.py:111-124 | one more block adds one to the count when it is DVB, and its failure if any |
| HbbTv.CheckNextBlock | HbbTV_Check.py:111-124 | one loop step extends the count and the failures to the next block |
| HbbTv.CheckBlocks | HbbTV_Check.py:109-124 | the loop counts the DVB blocks and collects their failures |
| HbbTv.CheckCountryTvConfig | HbbTV_Check.py:74-134 | a missing or blank XML gives only its note; otherwise the count, the failures and their sorted lines, with never more failures than DVB blocks |
| AllmEnable.CheckIsSupportAllm | check_allm_enable.py:119-136 | PASS exactly when a value is declared and trims and lower-cases to "true"; one note otherwise, the undeclared note when there is no value |
| AllmEnable.Kind | check_allm_enable.py:150-160 | a kept line is the non-empty comment-stripped line, free of `#` and `;` |
| AllmEnable.Kinds | check_allm_enable.py:146-160 | one kind per line |
| AllmEnable.ScanSection | check_allm_enable.py:146-161 | the loop gathers what the specification gathers |
| AllmEnable.ExtractAllmSectionLines | check_allm_enable.py:139-161 | the loop computes the [ALLM] lines |
| AllmEnable.InAllmSnoc | check_allm_enable.py:149-152 | a header line sets the in-section flag from its name; any other line leaves it |
| AllmEnable.GatherInside | check_allm_enable.py:153-160 | every gathered line is a kept line met while inside [ALLM] |
| AllmEnable.AllmLinesInside | check_allm_enable.py:139-161 | every [ALLM] line is a kept line of the file |
| AllmEnable.GatherAll | check_allm_enable.py:153-160 | with no stop inside the section, every kept line inside [ALLM] is gathered |
| AllmEnable.AllmLinesExact | check_allm_enable.py:139-161 | with no stop inside the section, the result is exactly the kept lines inside [ALLM] sections, in order |
| AllmEnable.GatherStops | check_allm_enable.py:157-158 | a header-looking comment-stripped line inside [ALLM] ends the scan |
| AllmEnable.SplitEq | check_allm_enable.py:210 | the unpacking succeeds exactly for an item with one '=', and key '=' value gives the item back |
| AllmEnable.SplitEqInverse | check_allm_enable.py:210 | splitting `key=value` gives back key and value |
| AllmEnable.SplitEqCount | check_allm_enable.py:210 | the unpacking succeeds exactly when the item holds exactly one '=' |
| AllmEnable.FoldAppend | check_allm_enable.py:208-212 | splitting the items in two runs is splitting them in one |
| AllmEnable.FoldExact | check_allm_enable.py:208-212 | pairs exactly when every item has one '=', one pair per item in order; otherwise the first bad item raises |
| AllmEnable.SplitLine | check_allm_enable.py:209-212 | the inner loop splits one line's comma items |
| AllmEnable.SplitPairs | check_allm_enable.py:208-212 | the nested loops split every item of the section |
| AllmEnable.ItemsNonEmpty | check_allm_enable.py:208-209 | every line gives at least one comma item |
| AllmEnable.OffendingExact | check_allm_enable.py:223-227 | offending is exactly the pairs whose key is "enable" (any case) and whose value is not "1" |
| AllmEnable.TrailingBlankKeyIgnored | check_allm_enable.py:226 | an untrimmed key such as `ENABLE ` never counts as ENABLE, whatever its value |
| AllmEnable.PairsNonEmpty | check_allm_enable.py:206-221 | a non-empty section that splits yields pairs, so the no-ENABLE branch cannot be taken |
| AllmEnable.CheckSection | check_allm_enable.py:195-234 | a bad item raises; otherwise PASS exactly when nothing offends, with one note when something does |
| AllmEnable.CheckTvDefaultAllmEnable | check_allm_enable.py:164-234 | an undeclared path, a missing file and an empty [ALLM] each fail with their note; otherwise the ENABLE verdict, PASS exactly without notes |
| AllmEnable.FoldPairsExact | check_allm_enable.py:208-212 | the items give pairs exactly when each one splits at a single '=', and then one pair per item, in item order |
| AllmEnable.FoldBadFirst | check_allm_enable.py:208-212 | when the unpacking fails, the failing item is the first one that does not split at a single '=' |
| AllmEnable.SingleItemSection | check_allm_enable.py:208-212 | a section of one line `key=value`, with no ',' and no further '=', unpacks to the single pair (key, value) |
| AllmEnable.PrefixedEnableZeroPasses | check_allm_enable.py:223-227 | as written, a one-pair section whose key is ENABLE-like but not ENABLE itself (such as `HDMI1_ENABLE=0`, or `ENABLE =0`) offends nothing although its value is not 1 |
| AllmEnable.NoEnableKeyPasses | check_allm_enable.py:215-227 | as written, a one-pair section with no ENABLE-like key (such as `FOO=1`) offends nothing, so it passes |
| AllmEnable.OffendingIntendedExact | check_allm_enable.py:168-170 | the documented offending list names exactly the ENABLE-like keys whose value is not 1, and is empty exactly when every ENABLE-like key is 1 |
| AllmEnable.JudgeIntended | check_allm_enable.py:168-170 | the loop over the trimmed pairs gives PASS exactly when some key ends in "enable" (any case) and every such key has the value 1; without such a key it fails with the "no ENABLE setting" note |
| AllmEnable.CheckSectionIntended | check_allm_enable.py:164-171 | a bad item still raises; otherwise PASS exactly when some trimmed key ends in "enable" (any case) and every such key's trimmed value is 1, with exactly one note when it fails; a section without such a key fails with the "no ENABLE setting" note of line 220 and an empty offending list; otherwise the offending list holds the ENABLE-like pairs whose value is not 1 |
| ProjSysName.RewriteFile | proj_sys_name_chk.py:20-43 | the file changes exactly when some line is rewritten; it is written exactly when it changes outside a dry run, with the rewritten lines; otherwise the file system is unchanged |
| ProjSysName.RewriteLines | proj_sys_name_chk.py:24-32 | the loop rewrites every line and reports a change exactly when the output differs |
| ProjSysName.RewriteFileStep | proj_sys_name_chk.py:20-43 | reading, rewriting and writing back computes the specified outcome |
| ProjSysName.RewriteFileFrame | proj_sys_name_chk.py:34-39 | no file is created or removed, and every other file is unchanged |
| ProjSysName.FileLinesLike | proj_sys_name_chk.py:24-25 | lines read from a file end with their newline, only the last may lack one |
| ProjSysName.MapKeepsShape | proj_sys_name_chk.py:24-32 | a rewrite that keeps line shape keeps the file's line structure |
| ProjSysName.RewriteFileReadBack | proj_sys_name_chk.py:34-39 | the written file reads back as the rewritten lines |
| ProjSysName.RewriteFileIdempotent | proj_sys_name_chk.py:20-43 | with an idempotent line rewrite, a second run changes nothing |
| ProjSysName.DryRunUnchanged | proj_sys_name_chk.py:34-36 | a dry run never changes any file |
| ProjSysName.RewriteAllFrame | proj_sys_name_chk.py:15-43 | the walk creates and removes no file and leaves every file it does not visit unchanged |
| ProjSysName.RewriteAllSnoc | proj_sys_name_chk.py:15-19 | the walk handles its files one after the other |
| ProjSysName.ProjectRewrite | proj_sys_name_chk.py:26-31 | a line changes only when it trims to start with `PROJECT_NAME =`, and then becomes `PROJECT_NAME = <base>;` |
| ProjSysName.ProjectLineKeyed | proj_sys_name_chk.py:27 | the new line is itself a PROJECT_NAME line |
| ProjSysName.ProjectRewriteIdempotent | proj_sys_name_chk.py:26-31 | rewriting PROJECT_NAME twice is rewriting it once |
| ProjSysName.ProjectLineLike | proj_sys_name_chk.py:27 | the new line ends with its one newline |
| ProjSysName.ProjectRewriteKeepsLines | proj_sys_name_chk.py:26-32 | the PROJECT_NAME rewrite keeps line shape |
| ProjSysName.UpdateProjectNameInModel | proj_sys_name_chk.py:11-43 | the walk's loop computes the specified file system |
| ProjSysName.ProjectFileIdempotent | proj_sys_name_chk.py:11-43 | running the PROJECT_NAME update on a file twice changes nothing the second time |
| ProjSysName.ProjectJobsNamed | proj_sys_name_chk.py:15-19 | each file the walk rewrites is a `1_`..`20_` .ini file of the model tree |
| ProjSysName.PickModelFilename | proj_sys_name_chk.py:49-54 | none exactly when no file matches `<idx>_*.ini`; otherwise the least matching name |
| ProjSysName.StringLessSamePrefix | proj_sys_name_chk.py:51 | a common prefix does not change the sort order |
| ProjSysName.IndexTable | proj_sys_name_chk.py:60 | the table has exactly the indices 1 to 20 |
| ProjSysName.ModelDigits | proj_sys_name_chk.py:74-77 | a captured index is a non-empty run of digits |
| ProjSysName.ModelRewrite | proj_sys_name_chk.py:76-86 | a `Model_<idx>` line with 1 <= idx <= 20 and a model file for idx becomes `Model_<idx> = "/tvconfigs/model/<file>"`; every other line is kept as it is |
| ProjSysName.ModelIndexAt | proj_sys_name_chk.py:74 | `Model_<digits> =` captures its digits |
| ProjSysName.DigitsThenBlank | proj_sys_name_chk.py:74 | the digit run stops at the blank after it |
| ProjSysName.ModelLineIndex | proj_sys_name_chk.py:82 | the new line carries its own index |
| ProjSysName.ModelLineLike | proj_sys_name_chk.py:82 | the new line ends with its one newline |
| ProjSysName.ModelRewriteIdempotent | proj_sys_name_chk.py:76-86 | rewriting Model_ lines twice is rewriting them once |
| ProjSysName.ModelRewriteKeepsLines | proj_sys_name_chk.py:76-87 | the Model_ rewrite keeps line shape |
| ProjSysName.UpdateSysModels | proj_sys_name_chk.py:56-99 | the walk's loop computes the specified file system |
| ProjSysName.SysFileIdempotent | proj_sys_name_chk.py:56-99 | running the Model_ update on a file twice changes nothing the second time |
| Pid1ConfigCheck.ResolveToProject | pid1_config_check.py:107-112 | a resolved path is never empty |
| Pid1ConfigCheck.ResolveTvconfigs | pid1_config_check.py:107-110 | `/tvconfigs/x` resolves to root/x |
| Pid1ConfigCheck.ResolveDropsLeading | pid1_config_check.py:107-112 | every leading '.' and '/' of another path is dropped before it is joined under root |
| Pid1ConfigCheck.ResolveOtherWithin | pid1_config_check.py:107-112 | any other path without ".." resolves inside the absolute root |
| Pid1ConfigCheck.TableAlpha2 | pid1_config_check.py:71-101 | every name in the table is non-empty and maps to two upper-case letters |
| Pid1ConfigCheck.Positions | pid1_config_check.py:156-158 | the candidate positions of the two-letter scan are 0 .. n-1 |
| Pid1ConfigCheck.ExtractCountryCodes | pid1_config_check.py:133-159 | the two loops compute the specified code set |
| Pid1ConfigCheck.TokenCodeIs | pid1_config_check.py:145-155 | a token's code is two upper-case letters, and a noise code comes only from the name table |
| Pid1ConfigCheck.ScanCodeIs | pid1_config_check.py:156-158 | the word scan yields only two-letter codes outside the noise list |
| Pid1ConfigCheck.CountryCodesAlpha2 | pid1_config_check.py:133-159 | every extracted code is two upper-case letters |
| Pid1ConfigCheck.NoiseOnlyByName | pid1_config_check.py:148-158 | a noise code such as IN or NO is extracted only as the mapping of a named country |
| Pid1ConfigCheck.NameYieldsCode | pid1_config_check.py:148-150 | a token naming a table country always yields its code |
| Pid1ConfigCheck.BoolState | pid1_config_check.py:161-165 | true exactly for BOOL_TRUE words, false exactly for BOOL_FALSE words, none otherwise |
| Pid1ConfigCheck.BoolWordsDisjoint | pid1_config_check.py:62-63 | no word is both true and false |
| Pid1ConfigCheck.BoolWordQuoted | pid1_config_check.py:162 | blanks, quotes and ';' around a word are stripped and the word is lower-cased |
| Pid1ConfigCheck.BoolWordPlain | pid1_config_check.py:162 | a bare lower-case word is its own cleaned form |
| Pid1ConfigCheck.BoolStateQuoted | pid1_config_check.py:161-165 | quoting a word does not change its truth value |
| Pid1ConfigCheck.Unquoted | pid1_config_check.py:171 | a stripped token neither starts nor ends with a quote |
| Pid1ConfigCheck.StripSetNoneIn | pid1_config_check.py:171 | stripping adds no separator |
| Pid1ConfigCheck.CleanPiecesClean | pid1_config_check.py:171-172 | cleaned separator-free pieces are clean tokens |
| Pid1ConfigCheck.TokensClean | pid1_config_check.py:167-172 | every token is non-empty, unquoted and free of separators |
| Pid1ConfigCheck.PieceClean | pid1_config_check.py:171 | unquoting a separator-free piece adds no separator |
| Text.SplitRunsWord | pid1_config_check.py:170 | a plain word splits to itself |
| Text.SplitRunsStep | pid1_config_check.py:170 | a word, one separator and text not starting with a separator split as the word followed by the split of that text |
| Text.SplitRunsJoined | pid1_config_check.py:170 | non-empty words free of the separators, joined by one separator, split back into the same words |
| Pid1ConfigCheck.SplitJoined | pid1_config_check.py:170 | splitting comma-joined plain words gives the words back |
| Text.SetIndexAt | pid1_config_check.py:170 | the split point is the first separator |
| Text.JoinedStarts | pid1_config_check.py:170 | a comma-joined list starts with its first word and ends with its last |
| Pid1ConfigCheck.UnquotedWord | pid1_config_check.py:170-171 | a plain word is left as it is by unquoting |
| Pid1ConfigCheck.UnquotedJoined | pid1_config_check.py:170 | unquoting comma-joined plain words leaves them as they are |
| Pid1ConfigCheck.CleanPlain | pid1_config_check.py:171-172 | plain words come out of cleaning unchanged |
| Pid1ConfigCheck.TokenizeJoined | pid1_config_check.py:167-172 | tokenising comma-joined plain words gives the words back |
| Pid1ConfigCheck.MapEntry | pid1_config_check.py:539-546 | an item gives an entry only with a non-empty key; key and value are upper case |
| Pid1ConfigCheck.ParsedItems | pid1_config_check.py:537-546 | one parse result per item, in order |
| Pid1ConfigCheck.ParseInputMappingValue | pid1_config_check.py:525-547 | the loop computes the specified mapping |
| Pid1ConfigCheck.ReadItems | pid1_config_check.py:537-546 | the loop stores every parsed entry in order |
| Pid1ConfigCheck.EntriesStep | pid1_config_check.py:546 | one more entry overwrites its key |
| Pid1ConfigCheck.EntriesUpper | pid1_config_check.py:543-546 | upper-case entries give upper-case keys and values |
| Pid1ConfigCheck.InputMappingUpper | pid1_config_check.py:525-547 | every key is non-empty, and keys and values are upper case |
| Pid1ConfigCheck.EntriesKeys | pid1_config_check.py:537-546 | a key is present exactly when some entry sets it |
| Pid1ConfigCheck.EntriesLast | pid1_config_check.py:546 | the last entry that sets a key gives its value |
| Pid1ConfigCheck.InputMappingKeys | pid1_config_check.py:525-547 | a key is present exactly when some item with ':' and a non-empty key sets it |
| Pid1ConfigCheck.InputMappingLast | pid1_config_check.py:525-547 | a later duplicate key overwrites an earlier one |
| Pid1ConfigCheck.CandidateText | pid1_config_check.py:327-332 | the candidate has its inline ';' comment removed |
| Pid1ConfigCheck.ResolveCandidatePath | pid1_config_check.py:325-339 | no path exactly for a placeholder value; otherwise a non-empty path |
| Pid1ConfigCheck.RStripKeeps | pid1_config_check.py:327 | stripping the end keeps a prefix that ends in a kept character |
| Pid1ConfigCheck.UnquotedKeeps | pid1_config_check.py:327 | unquoting keeps a prefix that starts and ends in plain characters |
| Pid1ConfigCheck.PrefixRest | pid1_config_check.py:330-331 | a prefix and the rest make up the whole |
| Pid1ConfigCheck.BeforeSemicolon | pid1_config_check.py:330-331 | the part before the first ';' is kept |
| Pid1ConfigCheck.CandidateComment | pid1_config_check.py:325-332 | `path;comment` reads as the trimmed path |
| Pid1ConfigCheck.DotSlashStripped | pid1_config_check.py:339 | after the leading '.'/'/' are dropped the path is relative |
| Pid1ConfigCheck.CandidateWithin | pid1_config_check.py:325-339 | a relative candidate without ".." resolves inside the absolute root |
| Pid1ConfigCheck.ScanCurve | pid1_config_check.py:341-361 | the loop computes the specified references |
| Pid1ConfigCheck.MissingOf | pid1_config_check.py:363 | missing is exactly the references whose file is absent, in order, so missing is within refs |
| Pid1ConfigCheck.ExtractVolcurvePaths | pid1_config_check.py:341-364 | the references of the [VOLUME_CURVE_CFG] sections and the missing ones among them |
| Pid1ConfigCheck.InCurveSnoc | pid1_config_check.py:349-352 | a header sets the in-section flag from its name; any other line leaves it |
| Pid1ConfigCheck.CurveRefsExact | pid1_config_check.py:348-361 | the flagged loop gathers what the section test gathers |
| Pid1ConfigCheck.CurveRefsFromInside | pid1_config_check.py:353-361 | every reference comes from an assignment inside [VOLUME_CURVE_CFG] |
| Pid1ConfigCheck.CurveRefsFromHas | pid1_config_check.py:353-361 | every resolvable assignment inside [VOLUME_CURVE_CFG] gives its reference |
| Pid1ConfigCheck.VolCurveRefsExact | pid1_config_check.py:341-364 | a path is a reference exactly when a non-placeholder assignment inside [VOLUME_CURVE_CFG] resolves to it |
| Pid1ConfigCheck.CurveKindAssign | pid1_config_check.py:355-358 | a `key=value` line is an assignment of the trimmed value |
| Pid1ConfigCheck.CurveKindHeader | pid1_config_check.py:349-352 | a `[name]` line is a header |
| Pid1ConfigCheck.AddNonNullInputs | pid1_config_check.py:577-584 | the loop adds the DVB inputs whose mapped value is not null |
| Pid1ConfigCheck.ScanItems | pid1_config_check.py:570-584 | the loop adds the inputs of every item |
| Pid1ConfigCheck.AnalyzeBlocks | pid1_config_check.py:562-584 | the loop collects the allowed types and their non-null DVB inputs |
| Pid1ConfigCheck.AnalyzeTvsysmap | pid1_config_check.py:549-621 | the XML blocks when the text parses, else the regex blocks, give the types and inputs |
| Pid1ConfigCheck.NonNullInputsIs | pid1_config_check.py:579-584 | an input is added exactly when it is DVBT, DVBC or DVBS and mapped to a value outside the null tokens |
| Pid1ConfigCheck.TypesOfIs | pid1_config_check.py:562-568 | a type is found exactly when it is allowed and some block has it |
| Pid1ConfigCheck.ItemInputsIs | pid1_config_check.py:570-584 | an item gives an input exactly when it maps it to a non-null value |
| Pid1ConfigCheck.BlockInputsIs | pid1_config_check.py:566-584 | a block gives an input exactly when its type is allowed and one of its items maps it non-null |
| Pid1ConfigCheck.InputsOfIs | pid1_config_check.py:562-584 | an input is found exactly when some item of an allowed block maps it non-null |
| Pid1ConfigCheck.InputsOfDvb | pid1_config_check.py:579-584 | inputs are among DVBT, DVBC and DVBS |
| Pid1ConfigCheck.TypesOfAllowed | pid1_config_check.py:567-568 | types are among DVB, DVB_CO and DTMB |
| Pid1ConfigCheck.NameAlpha2 | pid1_config_check.py:521-523 | a name maps only to a two-letter code |
| Pid1ConfigCheck.EntriesAppend | pid1_config_check.py:699 | one more recorded system overwrites its country |
| Pid1ConfigCheck.AddEntries | pid1_config_check.py:692-701 | the loop adds a file's countries and records their systems |
| Pid1ConfigCheck.ScanCountryFiles | pid1_config_check.py:683-701 | the loops gather the countries, the systems and the missing files |
| Pid1ConfigCheck.MapCountriesIs | pid1_config_check.py:694-697 | a country is gathered exactly when some entry's name maps to it |
| Pid1ConfigCheck.MapCountriesAlpha2 | pid1_config_check.py:695-697 | every gathered country is a two-letter code |
| Pid1ConfigCheck.EntrySystemOfCountry | pid1_config_check.py:697-699 | every entry's recorded system belongs to a gathered country |
| Pid1ConfigCheck.Alpha2Upper | pid1_config_check.py:521-523 | a two-letter code is non-empty upper case |
| Pid1ConfigCheck.RecordedSystemsOfCountry | pid1_config_check.py:697-699 | every recorded system belongs to a gathered country |
| Pid1ConfigCheck.MapSystemsCountries | pid1_config_check.py:697-699 | every country in the system map was gathered, and its system is upper case |
| Pid1ConfigCheck.VolCurveMissingAll | pid1_config_check.py:752-759 | the loop gathers the missing curve files of every tvSysMap |
| Pid1ConfigCheck.AnalyzeAll | pid1_config_check.py:761-767 | the loop unites the types and inputs of every tvSysMap |
| Pid1ConfigCheck.ListOrDefault | pid1_config_check.py:640-641 | an empty list means the default |
| Pid1ConfigCheck.EuNonDvb | pid1_config_check.py:715-719 | exactly the allowed countries whose recorded system is non-empty and not DVB/DVB_CO, in ascending order |
| Pid1ConfigCheck.ModelStateOf | pid1_config_check.py:674-677 | the model is present exactly when it is set and exists |
| Pid1ConfigCheck.BoardMissingOf | pid1_config_check.py:678-679 | the board is missing exactly when it is set and absent |
| Pid1ConfigCheck.RowCountries | pid1_config_check.py:703-704 | the map's countries, or the model fallback when the map gives none |
| Pid1ConfigCheck.ExistenceProblems | pid1_config_check.py:673-679 | Model_1 unset, Model_1 missing and Board_1 missing are each reported exactly when they hold |
| Pid1ConfigCheck.CountryProblems | pid1_config_check.py:707-731 | the EU system rule applies only with a system map; the allow/deny rule only without one, and each reports a non-empty set |
| Pid1ConfigCheck.TvSysMapProblems | pid1_config_check.py:781-794 | no allowed type is reported exactly when tvSysMaps exist without types; no DVB input exactly when types exist without one |
| Pid1ConfigCheck.Problems | pid1_config_check.py:671-799 | the existence problems are always reported |
| Pid1ConfigCheck.ProblemsFrom | pid1_config_check.py:671-794 | each problem comes from its own rule, and the country and tvSysMap rules only with an existing model |
| Pid1ConfigCheck.EuRuleExclusive | pid1_config_check.py:707-731 | the EU system rule and the allow/deny rule never both report |
| Pid1ConfigCheck.ModelProblemExclusive | pid1_config_check.py:674-677 | Model_1 is never both unset and missing |
| Pid1ConfigCheck.NoModelOnlyExistence | pid1_config_check.py:673-767 | without a model only existence problems are reported |
| Pid1ConfigCheck.TvSysMapRules | pid1_config_check.py:788-794 | the two tvSysMap rules hold in the whole row's problems |
| Pid1ConfigCheck.ProblemsPass | pid1_config_check.py:671-799 | no problem exactly when the row meets every rule |
| Pid1ConfigCheck.Status | pid1_config_check.py:796-799 | ERROR exactly when there is a problem, OK otherwise |
| Pid1ConfigCheck.CountryFacts | pid1_config_check.py:682-722 | the countries, systems, missing maps and EU violations of the specification |
| Pid1ConfigCheck.GatherFacts | pid1_config_check.py:682-767 | every fact of an existing model as specified |
| Pid1ConfigCheck.CheckRow | pid1_config_check.py:645-801 | the facts of an existing model, the problems of the specification, and the status |
| Ini.StripComment | target_country_check.py:149-153 | the result holds neither '#' nor ';' |
| Ini.StripCommentPlain | check_AUTO_PCMODE.py:131-135 | a trimmed line without comment characters is kept whole |
| Ini.StripCommentQuotedDeclaration | check_AUTO_PCMODE.py:131-135 | a quoted `KEY="v"` without comment characters survives |
| Ini.StripCommentBareDeclaration | check_AUTO_PCMODE.py:131-135 | an unquoted `KEY=v` without comment characters survives |
| Ini.CommentCut | check_ginga_flag.py:37-40 | the cut lies before any '#' or ';' and at one when inside the line |
| Ini.StripCommentEarliest | check_ginga_flag.py:37-40 | cutting at '#' then at ';' is cutting once at the first of them, then trimming |
| Ini.StripCommentTrimmedFirst | check_supportedDeviceGooglePairer.py:35-44 | the result holds neither '#' nor ';' |
| Ini.StripCommentTrimmedFirstSame | check_supportedDeviceGooglePairer.py:35-44 | trimming first gives the same result as the common comment stripper |
| Ini.StripWholeLineComment | check_cltv.py:138-140 | a line is kept whole or emptied, and kept only when its first non-blank character is not '#' |
| Ini.AfterKeyEqExclusive | check_AUTO_PCMODE.py:157 | keys that differ in their first letter never match the same line |
| Ini.QuotedGroup | check_AUTO_PCMODE.py:157 | the captured group is non-empty and quote-free |
| Ini.KeyValue | check_AUTO_PCMODE.py:157-164 | a value holds no quote and comes from the line |
| Ini.LineValue | check_AUTO_PCMODE.py:159-164 | a value of an uncommented line holds no quote, '#' or ';' |
| Ini.AfterKeyEqDeclared | check_AUTO_PCMODE.py:157 | `KEY=rest` leaves `rest` after the key pattern |
| Ini.QuotedGroupQuoted | check_AUTO_PCMODE.py:157 | `"v"` captures `v` |
| Ini.QuotedGroupBare | check_AUTO_PCMODE.py:157 | a bare `v` captures itself |
| Ini.KeyValueQuoted | check_AUTO_PCMODE.py:155-165 | `KEY="v"` reads back as `v`, trimmed |
| Ini.KeyValueBare | check_AUTO_PCMODE.py:155-165 | `KEY=v` reads back as `v`, trimmed |
| Ini.AfterKeyEqCaseBlind | check_AUTO_PCMODE.py:157 | under IGNORECASE, spellings of a key differing in case match the same lines |
| Ini.LineValueCaseBlind | check_AUTO_PCMODE.py:157-164 | under IGNORECASE, spellings of a key differing in case read the same value |
| Ini.PairedQuoteValue | check_allm_enable.py:66-68 | a value exactly when the line starts with the key and '=' |
| Ini.Unpair | check_allm_enable.py:66 | removing a quote pair never lengthens the value |
| Ini.UnpairQuoted | check_allm_enable.py:66 | `"v"` loses both quotes |
| Ini.UnpairUnpaired | check_allm_enable.py:66 | `"v` without its closing quote keeps the opening one |
| Ini.PairedQuoteQuoted | check_allm_enable.py:57-69 | `KEY="v"` gives `v` without quotes |
| Ini.PairedQuoteUnpaired | check_allm_enable.py:57-69 | `KEY="v` gives `"v` |
| Ini.FindKeyValue | check_AUTO_PCMODE.py:155-165 | a value exactly when some uncommented line declares the key; it holds no quote |
| Ini.FindKeyValueStep | check_AUTO_PCMODE.py:158-164 | one more line keeps a value already found; a blank or comment line adds nothing |
| Ini.FindKeyValueAppend | check_AUTO_PCMODE.py:158-164 | later lines never change the first declaration found |
| Ini.FindFirst | check_AUTO_PCMODE.py:158-165 | the loop returns what the first matching line gives |
| Ini.KvLine | check_allm_enable.py:62-68 | only a non-empty uncommented line with '=' is matched, and it matches exactly when it starts with the key and '=' |
| Ini.FindKv | check_allm_enable.py:57-69 | a value exactly when some line matches, and then the first such line's |
| Ini.KvLineQuoted | check_allm_enable.py:57-69 | `KEY="v"` reads back as `v` without quotes, trimmed |
| Ini.FindKvAt | check_allm_enable.py:62-69 | the first matching line decides, whatever follows |
| Ini.CollectLastWins | check_netflix_cert.py:202-223 | the loop builds the table in which the last line for a key wins |
| Ini.LastWinsSpec | check_netflix_cert.py:202-223 | a key is present exactly when some line sets it, and the last such line gives its value |
| Files.Read | check_ginga_flag.py:24-34 | text exactly for an existing file, without carriage returns |
| Files.ReadLines | check_ginga_flag.py:24-34 | lines exactly for an existing file |
| Files.IterLines | check_dvbs_satellite_flag.py:63-64 | lines exactly for an existing file |
| Files.LinesOrEmpty | pid1_config_check.py:120-124 | a missing file reads as no lines |
| Dedup.Unique | target_country_check.py:223-226 | no duplicates, the same items, never longer |
| Dedup.Deduplicate | target_country_check.py:223-226 | the seen/uniq loop keeps the first occurrences |
| Dedup.UniquePrefix | target_country_check.py:223-226 | more items only extend the de-duplicated list |
| Dedup.UniqueNoDup | target_country_check.py:223-226 | a duplicate-free list is unchanged |
| Dedup.UniqueFirstOrder | target_country_check.py:223-226 | kept items come in the order of their first occurrence |
| Dedup.UniqueIdempotent | target_country_check.py:223-226 | de-duplicating twice is de-duplicating once |
| Scan.SectionHeader | pid1_config_check.py:308 | a header name is non-empty and holds no ']' |
| Scan.SectionHeaderOf | pid1_config_check.py:308 | `[name]` between blanks is a header named `name` |
| Scan.SectionHeaderShape | pid1_config_check.py:308 | a header line is blanks, `[name]`, blanks |
| Search.ExtractQuotedValue | check_EWBS.py:20-23 | the value holds no quote, and is "" when the pattern does not match |
| Search.ExtractQuotedDeclared | check_EWBS.py:20-23 | `KEY="v"` gives `v`, trimmed |
| Search.QuotedSearchDeclared | check_EWBS.py:22 | `re.search` finds the quoted text of `KEY="v"` |
| Search.CountMatchesZero | check_japan_only.py:62 | the count is zero exactly when the word does not occur, case aside |


## Left out

- Excel, CSV and xlsxwriter reporting (`export_report*`, `write_to_excel`, `append_report_row`, the output part of `write_reports`) and console printing: formatting with no decision logic. The sheet-name helpers that reports use are modelled.
- Command-line plumbing: argparse `main` functions and default arguments. Process exit codes are modelled only for check_dias_5k.py, check_dias_panel.py and check_osdtable_colorspace.py (`Dias.ExitCode`, `Colorspace.ExitCode`); the other scripts' exit statuses are left out (auto_v.py always exits 1 at line 130; tvconfigs_path_check.py's `main`).
- XML parsing (`xml.etree`): each parse tier is an oracle that yields blocks or an error. This includes the `[root] if root.tag == ...` fallback of the DVB-S and Ginga loaders.
- The regular-expression engine in general: only the patterns the checks use are restated, as string predicates.
- Directory walking (`rglob`, `glob`, `os.walk`), symbolic links and `Path.resolve` beyond path normalisation, file permissions, and the temporary-file-plus-replace write of tvconfigs_path_check.py. A write is an update of the file map.
- TvconfigsPathCheck.FileStep: the backup (tvconfigs_path_check.py:158-161) is modelled as a copy of the file's text only. `shutil.copy2` also copies mode bits and timestamps, which the file map does not hold. A failed backup is caught and printed at lines 162-163 and the rewrite goes on; in the model the backup always succeeds.
- Text decoding and its encoding fallback (utf-8, latin-1, utf-16): a file is its decoded text.
- Text.Lower, Text.Upper, Text.EqualsIgnoreCase, Text.IsDigit, Text.IsWordChar and Text.ParseInt cover ASCII only. Python's `str.lower`/`str.upper`, `int()`, `re.IGNORECASE`, `\w`, `\b` and `\d` also act on other Unicode letters and digits. So the model differs on non-ASCII text: `falſe` matches `false` under IGNORECASE (ShowPvrFlag), `int('١')` is 1 (Ci, DapVirtualizerMode), a CJK letter before `DIAS_Project` defeats `\b` (DiasProject), and `'ſ'.upper()` is `S` (VrrQms.InferFlags).
- Files.Exists: the file map holds regular files only, so a path naming a directory counts as absent. In the scripts, `os.path.exists` is true for a directory: a tvSysMap declared as a directory passes MultiStandardPid5's existence check there, and fails it here. `open()` on a directory raises `IsADirectoryError` (for example in AllmEnable), where the model reports the file missing.
- run_tvchecks_import.py (dynamic module import and dispatch), required_structure_check.py (a directory skeleton audit with a JSON override) and check_dias_4k60.py (its panel values are compared as floats) are not part of this model.
- pid1_config_check.py: the functions that search the tree or parse XML are parameters or oracles of the rule engine:
  - `find_pid_model_paths`, `find_device_pid_model_paths`;
  - `gather_pid_countries_from_model`;
  - `detect_cltv_and_multistd`. The row's "non-boolean `multi_std`" problem (line 742) is not modelled: it cannot be raised, because the value comes from `_bool_state_from_str` (lines 161-165), which returns only True, False or None, and None is handled before the test;
  - `find_tvsysmap_files_from_model`, `resolve_country_tvsysmap_paths_from_tvsysmap`;
  - `parse_country_tv_system_file`;
  - the XML attribute scans of `analyze_tvsysmap_for_types_and_inputs`. Its block-level logic is modelled.
- check_allm_enable.py: the branch for an `[ALLM]` section without any ENABLE pair is not modelled, because it cannot be reached (lemma `AllmEnable.PairsNonEmpty`).
- AllmEnable.CheckTvDefaultAllmEnable keeps the ENABLE test as written (`AllmEnable.CheckSection`). The test the docstring describes is `AllmEnable.CheckSectionIntended`; see "## Findings".
- proj_sys_name_chk.py: its progress printing, and the exceptions it catches and prints while reading or writing a file. A file that cannot be read is passed over.
- check_typec_pd_max.py: the report's result column is always N/A and is not modelled as a verdict.


## Findings

| source | as written | input that shows it | evidently intended | confidence | as-written member | corrected member |
|---|---|---|---|---|---|---|
| check_EWBS.py:87-99 | PASS needs the `isEwbsSettingOn` line to be present, but the failure reason "isEwbsSettingOn not set" is chosen by whether the line's value parses as a boolean | `isSupportEWBS = false` together with a line `isEwbsSettingOn=`: the present setting line is reported as "not set" | a failure names a flag "not set" exactly when its line is missing, as the PASS condition reads it | not executed | Ewbs.AsWrittenMislabels | Ewbs.Evaluate |
| check_tvconfig_and_mheg5.py:167-175 | the guard for a missing path or file in `check_mheg5_flag` is commented out, so `_read_text(None)` or a missing file raises | a model.ini that declares no TvConfig: `check_mheg5_flag(None)` raises instead of answering | a missing path or file answers False, as the commented-out guard did | not executed | TvConfigMheg5.UndeclaredTvConfigRaises | TvConfigMheg5.CheckMheg5Flag |
| pic_mode_test.py:230-281 | `run` is annotated to return a `Dict` but ends without a `return` | any call of `run`, for instance with a model.ini whose TvServIni passes: the caller receives None | `run` returns the result dictionary it builds | not executed | PicMode.RunAsWritten | PicMode.Run |
| check_allm_enable.py:226 | the ENABLE test counts a pair only when its untrimmed key lower-cases to exactly "enable", and it never asks for an ENABLE key to be present, although the docstring (lines 12, 168-170) requires at least one ENABLE-like key, such as HDMI1_ENABLE, and requires every such key to be 1 | an [ALLM] section holding `HDMI1_ENABLE=0`, or `ENABLE =0`, or only `FOO=1`: each one passes | PASS exactly when some trimmed key ends in "enable" (any case) and every such key's trimmed value is 1 | not executed | AllmEnable.PrefixedEnableZeroPasses, AllmEnable.NoEnableKeyPasses, AllmEnable.TrailingBlankKeyIgnored | AllmEnable.CheckSectionIntended |

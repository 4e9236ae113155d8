# nvm text cleaning, BIDS file names and the dash-word pattern, in Dafny

This project models three small pieces of the `nvm` Python package and proves
what they promise.

- **`clean_str`** (`nvm/aux_str/aux_str.py`) cleans a text in two stages.
  - First it rewrites the text with an ordered list of rule groups. Each group
    is a dictionary whose keys are replacement texts and whose values are lists
    of patterns. Every pattern is applied with `re.sub`, in list order, to the
    text the previous pattern left.
  - Then it turns every run of two or more whitespace characters into one
    space and strips whitespace from both ends.
  - `CleanStr.CleanText` is the three nested loops, proved equal to the
    specification function `CleanStr.Clean`.
  - The shipped rule tables `CLEAN_STR_MAPPINGS_TINY`, `_LARGE` and `_HUGE`
    are constants in `CleanStrMappings`.
  - The test mappings of `nvm/tests/test_aux_str.py` are in `CleanStrExamples`.
- **`dict_from_bids_filename`** (`nvm/aux_bids/__init__.py`) takes a path's
  file name apart. It returns:
  - the `_`-separated tokens of the part before the first dot, with empty
    tokens dropped;
  - a dictionary from the tag of every dashed token to its value, with later
    tokens overwriting earlier ones;
  - the list of tokens without a dash;
  - the extension, which is the concatenation of `pathlib`'s suffixes.

  The result depends on the file name only (`AuxBids`). The docstring example
  is worked out in full (`AuxBidsExample`).
- **`REGEX_ABC_DASH_XYZ_ASTERISK`** (`nvm/aux_str/regex.py`) is the pattern
  `^[a-z]+(\-[a-z]+)*\*?$` with `re.IGNORECASE`. It is modelled as a
  five-state recogniser (`AbcDashXyz.Accepts`) and as a grammar
  (`AbcDashXyz.Derives`), and the two are proved to accept the same strings.

`Strings` holds Python's `str.split` and `str.join` for a one-character
separator. It also has their round trip.

How the model represents the source:
- Python dictionaries keep insertion order. A mapping group is therefore a
  sequence of `Rule(replacement, matchers)`, and the `props` dictionary is a
  sequence of (tag, value) pairs.
- A pattern is either a literal text or a one-character class (`[abc]`). A
  `re.I` class is written with both cases listed.
- `re.sub` with such a pattern is modelled as `ReplaceAll`. It replaces every
  leftmost, non-overlapping match and does not rescan the text it inserted.

## Model

| member | source | states |
|---|---|---|
| Strings.Split | nvm/aux_bids/__init__.py:122 | `s.split(sep)`: at least one piece, no piece holds the separator, joining the pieces gives `s` back, and there is one piece exactly when `s` has no separator |
| Strings.Join | nvm/aux_bids/__init__.py:122-124 | `sep.join(pieces)`, the inverse of the split: `Split` undoes it on separator-free pieces (`SplitJoin`) |
| Strings.SplitJoin | nvm/aux_bids/__init__.py:124 | splitting the join of separator-free pieces gives the pieces back |
| Strings.SplitHead | nvm/aux_bids/__init__.py:122 | the first piece of a split is the text before the first separator, and the rest is what follows it |
| Strings.JoinAppend | nvm/aux_bids/__init__.py:124 | joining two lists is joining each and putting one separator between |
| Strings.SplitAround | nvm/aux_bids/__init__.py:122 | splitting around one separator splits each side |
| Strings.ConcatSplit | nvm/aux_bids/__init__.py:124 | gluing the pieces of a split without separators is the text with the separators removed |
| Strings.Concat | nvm/aux_bids/__init__.py:116 | `"".join(parts)`: the result is empty exactly when every part is empty |
| Strings.ConcatPrefixed | nvm/aux_bids/__init__.py:116 | concatenating the pieces, each with a dot in front, is a dot followed by the dot-join |
| Strings.JoinAvoids | nvm/aux_bids/__init__.py:124 | a character that is in no piece and is not the separator is not in the join |
| CleanStr.TrimLeft | nvm/aux_str/aux_str.py:141 | the left half of `strip()`: a suffix of the text, everything cut is whitespace, and the result does not start with whitespace |
| CleanStr.TrimRight | nvm/aux_str/aux_str.py:141 | the right half of `strip()`: a prefix of the text, everything cut is whitespace, and the result does not end with whitespace |
| CleanStr.Strip | nvm/aux_str/aux_str.py:141 | `strip()`: a contiguous part of the text starting after the leading whitespace, with no whitespace at either end |
| CleanStr.Collapse | nvm/aux_str/aux_str.py:139 | `re.sub(r"\s\s+", " ", s)`: never longer, empty exactly when the input is, keeps whether the first character is whitespace, and leaves no two whitespace characters side by side |
| CleanStr.ReplaceAll | nvm/aux_str/aux_str.py:136 | `re.sub(pattern, key, text)` for one literal or class: a text with no match comes back unchanged; `ReplaceAllLeftmost` fixes the result on every other text |
| CleanStr.ReplaceAllSkips | nvm/aux_str/aux_str.py:136 | text in which no match starts is copied unchanged, whatever follows it |
| CleanStr.ReplaceAllLeftmost | nvm/aux_str/aux_str.py:136 | for any pattern and any replacement: the text before the leftmost match is copied, the match becomes the replacement, and the scan resumes right after the match |
| CleanStr.ReplaceAllLiteral | nvm/aux_str/aux_str.py:136 | for a literal of any width: if no occurrence starts before a given one, that occurrence is replaced and the rest of the text is substituted on its own, even when the replacement contains the literal |
| CleanStr.ReplaceAllNoOverlap | nvm/aux_str/aux_str.py:136 | matches do not overlap: replacing `aa` by `b` in `aaa` gives `ba` |
| CleanStr.ReplaceAllNoRescan | nvm/aux_str/aux_str.py:136 | inserted text is not scanned again: replacing `a` by `aa` in `a` gives `aa` |
| CleanStr.Clean | nvm/aux_str/aux_str.py:133-142 | `clean_str`: the result has no adjacent whitespace and no whitespace at either end |
| CleanStr.ApplyMatchers | nvm/aux_str/aux_str.py:135-136 | the innermost loop: each pattern of one key replaced in list order; `ApplyMatchersIsSteps` proves it is the key's substitutions in order |
| CleanStr.ApplyGroup | nvm/aux_str/aux_str.py:134-136 | the middle loop over one dictionary's keys in insertion order; `ApplyGroupIsSteps` proves it is their substitutions in order |
| CleanStr.ApplyMappings | nvm/aux_str/aux_str.py:133-136 | the outer loop over the groups in list order; `ApplyMappingsIsSteps` proves it is every substitution in group, key and pattern order |
| CleanStr.CleanText | nvm/aux_str/aux_str.py:133-142 | the three nested loops followed by the collapse and the strip compute `Clean`; with no mappings the result is the strip of the collapse |
| CleanStr.SubstringKeepsNoAdjacentWs | nvm/aux_str/aux_str.py:139-141 | stripping a collapsed text cannot create adjacent whitespace |
| CleanStr.StripKeepsNoAdjacentWs | nvm/aux_str/aux_str.py:141 | stripping a text without adjacent whitespace leaves none |
| CleanStr.CollapseFixedPoint | nvm/aux_str/aux_str.py:139 | the collapse leaves a text unchanged exactly when it has no two adjacent whitespace characters |
| CleanStr.CollapseKeepsNonWs | nvm/aux_str/aux_str.py:139 | the collapse keeps every non-whitespace character in order |
| CleanStr.TrimLeftKeepsNonWs | nvm/aux_str/aux_str.py:141 | trimming on the left keeps every non-whitespace character |
| CleanStr.TrimRightKeepsNonWs | nvm/aux_str/aux_str.py:141 | trimming on the right keeps every non-whitespace character |
| CleanStr.StripKeepsNonWs | nvm/aux_str/aux_str.py:141 | the strip keeps every non-whitespace character in order |
| CleanStr.NonWsAppend | nvm/aux_str/aux_str.py:139-141 | the non-whitespace characters of a concatenation are those of each part |
| CleanStr.CleanWithoutRules | nvm/aux_str/aux_str.py:133-142 | with an empty mapping list, cleaning is collapse then strip, and every non-whitespace character survives |
| CleanStr.StripCollapseNoWs | nvm/aux_str/aux_str.py:139-141 | a text without whitespace passes the collapse and the strip unchanged |
| CleanStr.CleanOfNoWs | nvm/aux_str/aux_str.py:133-142 | when the substitutions leave a text without whitespace, that text is the result of `clean_str` |
| CleanStr.CollapseLone | nvm/aux_str/aux_str.py:139 | a lone whitespace character followed by non-whitespace or by the end is kept as it is |
| CleanStr.CollapseRun | nvm/aux_str/aux_str.py:139 | a run of two or more whitespace characters becomes one space |
| CleanStr.CollapseWord | nvm/aux_str/aux_str.py:139 | a whitespace-free prefix passes through the collapse unchanged |
| CleanStr.CollapsePlainCons | nvm/aux_str/aux_str.py:139 | a non-whitespace character in front of a text stays in front of its collapse |
| CleanStr.CollapseGap | nvm/aux_str/aux_str.py:139 | a single space or a longer whitespace run before a word becomes one space |
| CleanStr.CollapseOfWs | nvm/aux_str/aux_str.py:139 | the collapse of whitespace is whitespace |
| CleanStr.CollapseLead | nvm/aux_str/aux_str.py:139 | leading whitespace becomes one space if there are two or more characters of it, and stays as it is otherwise |
| CleanStr.CollapseSpaced | nvm/aux_str/aux_str.py:139 | words separated by whitespace gaps collapse to the words joined by single spaces |
| CleanStr.CollapseFramed | nvm/aux_str/aux_str.py:139 | the same with leading whitespace in front and any text after |
| CleanStr.StripAround | nvm/aux_str/aux_str.py:141 | stripping whitespace-framed text that has no whitespace at its ends gives that text |
| CleanStr.AllWsTrims | nvm/aux_str/aux_str.py:141 | a text of whitespace strips to nothing |
| CleanStr.TrimLeftAt | nvm/aux_str/aux_str.py:141 | left trimming stops at the first non-whitespace character |
| CleanStr.TrimRightAt | nvm/aux_str/aux_str.py:141 | right trimming stops at the last non-whitespace character |
| CleanStr.StripCollapseSpaced | nvm/aux_str/aux_str.py:139-141 | whitespace-framed words with whitespace gaps become the words joined by single spaces |
| CleanStr.JoinEdges | nvm/aux_str/aux_str.py:139-141 | a join of non-empty words starts with the first word's first character and ends with the last word's last character |
| CleanStr.JoinedWordsEdges | nvm/aux_str/aux_str.py:141 | words joined by spaces have no whitespace at either end |
| CleanStr.Spaced | nvm/aux_str/aux_str.py:139 | words with whitespace gaps between them start with the first word's first character |
| CleanStr.PrintableNotWs | nvm/aux_str/aux_str.py:139 | visible ASCII characters are not whitespace |
| CleanStr.PrintableWord | nvm/aux_str/aux_str.py:139 | a visible ASCII text holds no whitespace |
| CleanStr.SingleKey | nvm/aux_str/aux_str.py:134-136 | a group with one key applies that key's patterns in order |
| CleanStr.OneKey | nvm/aux_str/aux_str.py:133-136 | a mapping list of one single-key group applies that key's patterns in order |
| CleanStr.TwoGroups | nvm/aux_str/aux_str.py:133 | two groups apply one after the other, on the text the first left |
| CleanStr.OneMatcher | nvm/aux_str/aux_str.py:135-136 | a key with one pattern is one `re.sub` |
| CleanStr.RuleSteps | nvm/aux_str/aux_str.py:135-136 | a key unrolls to one substitution per pattern, in list order, all with the key's replacement |
| CleanStr.ApplyStepsAppend | nvm/aux_str/aux_str.py:133-136 | substitutions run in sequence: running `a + b` is running `a` and then `b` on its result |
| CleanStr.ApplyMatchersIsSteps | nvm/aux_str/aux_str.py:135-136 | a key's loop is its substitutions in list order |
| CleanStr.ApplyGroupIsSteps | nvm/aux_str/aux_str.py:134-136 | a group's loop is its keys' substitutions in insertion order |
| CleanStr.ApplyMappingsIsSteps | nvm/aux_str/aux_str.py:133-136 | the whole fold is every substitution in group, key and pattern order |
| CleanStr.GroupStepsAppend | nvm/aux_str/aux_str.py:134 | the substitutions of two groups' keys are those of the first group followed by those of the second |
| CleanStr.StepsAppend | nvm/aux_str/aux_str.py:133 | the substitutions of two mapping lists are those of the first list followed by those of the second |
| CleanStr.SingleGroupSteps | nvm/aux_str/aux_str.py:133 | the substitutions of a one-group list are those of its group |
| CleanStr.MappingsAppend | nvm/aux_str/aux_str.py:133 | a longer mapping list is its first part applied, then the rest applied to the result |
| CleanStr.GroupSplit | nvm/aux_str/aux_str.py:133-134 | one group with several keys cleans exactly like consecutive groups with one part of the keys each |
| CleanStr.ApplyGroupAppend | nvm/aux_str/aux_str.py:134 | a group's keys apply in sequence, so a group can be split in two |
| CleanStr.GroupSplitAlone | nvm/aux_str/aux_str.py:133-134 | the substitution stage of one two-part group equals that of two groups |
| CleanStr.NoMatchInSuffix | nvm/aux_str/aux_str.py:136 | a text without a match has no match in any of its suffixes |
| CleanStr.NoMatchInPrefix | nvm/aux_str/aux_str.py:136 | a text without a match has no match in any of its prefixes |
| CleanStr.ForeignPrefix | nvm/aux_str/aux_str.py:136 | characters no match can use do not create a match in front of a matchless text |
| CleanStr.ReplaceAllHead | nvm/aux_str/aux_str.py:136 | the first character after a substitution is the replacement's first character if the text starts with a match, and otherwise the text's first character |
| CleanStr.ReplaceAllPrefix | nvm/aux_str/aux_str.py:136 | a prefix of the result that another pattern could match was copied from the input, because no replacement character can take part in that match |
| CleanStr.CollapsePrefix | nvm/aux_str/aux_str.py:139 | a space-free prefix of the collapse was copied from the input |
| CleanStr.ReplaceAllRemoves | nvm/aux_str/aux_str.py:136 | after `re.sub` with a non-empty replacement foreign to the pattern, the pattern no longer matches anywhere |
| CleanStr.ReplaceAllKeepsAbsent | nvm/aux_str/aux_str.py:136 | a later substitution with foreign replacement text does not bring back a pattern that was gone |
| CleanStr.CollapseKeepsAbsent | nvm/aux_str/aux_str.py:139 | the collapse does not bring back a pattern that cannot match a space |
| CleanStr.StripKeepsAbsent | nvm/aux_str/aux_str.py:141 | the strip does not bring back a pattern |
| CleanStr.SettledIsFixed | nvm/aux_str/aux_str.py:133-136 | a text that no pattern matches passes through all the substitutions unchanged |
| CleanStr.ApplyStepsSettles | nvm/aux_str/aux_str.py:133-136 | when replacements are non-empty and foreign to every pattern, no pattern matches after the substitutions (nothing is rescanned, yet nothing is left) |
| CleanStr.CleanSettles | nvm/aux_str/aux_str.py:133-142 | under the same condition no pattern matches the cleaned text |
| CleanStr.CleanIdempotent | nvm/aux_str/aux_str.py:133-142 | under the same condition cleaning twice is cleaning once |
| CleanStr.GroupStepsCover | nvm/aux_str/aux_str.py:134-136 | every pattern of every key of a group is one of the group's substitutions |
| CleanStr.StepsCover | nvm/aux_str/aux_str.py:133-136 | every pattern of every key of every group is one of the fold's substitutions |
| CleanStr.CleanClears | nvm/aux_str/aux_str.py:133-142 | under the same condition no pattern of any key matches the cleaned text |
| CleanStr.GroupStepsOver | nvm/aux_str/aux_str.py:134-136 | keys whose replacements come from a set their patterns never take give substitutions with that property |
| CleanStr.StepsOver | nvm/aux_str/aux_str.py:133-136 | the same for a whole mapping list |
| CleanStr.WellBehavedByRules | nvm/aux_str/aux_str.py:133-136 | if every replacement is drawn from a set of characters, including the space, that no pattern takes, the idempotence condition holds |
| CleanStr.OneCharMatch | nvm/aux_str/aux_str.py:136 | a one-character pattern matches exactly where its character stands |
| CleanStr.ReplaceAllConcat | nvm/aux_str/aux_str.py:136 | a one-character pattern substitutes piece by piece |
| CleanStr.ReplaceAllStep | nvm/aux_str/aux_str.py:136 | with a one-character pattern, each character is either replaced or copied, then the scan goes on |
| CleanStr.ReplaceAllUntouched | nvm/aux_str/aux_str.py:136 | a text none of whose characters a pattern takes is unchanged by it |
| CleanStr.EmptyReplacementDeletes | nvm/aux_str/aux_str.py:105-108 | an empty replacement deletes every character the pattern matches and keeps the rest |
| CleanStr.Without | nvm/aux_str/aux_str.py:105-108 | the text with the pattern's characters removed holds none of them and is no longer than the input |
| CleanStr.ApplyMatchersConcat | nvm/aux_str/aux_str.py:135-136 | a key of one-character patterns substitutes piece by piece |
| CleanStr.ApplyMatchersUntouched | nvm/aux_str/aux_str.py:135-136 | a text that none of a key's patterns takes is unchanged by that key |
| CleanStr.ApplyMatchersHit | nvm/aux_str/aux_str.py:135-136 | a character taken by one of the key's patterns becomes the replacement, and no later pattern rewrites it |
| CleanStr.ReplaceAllPointwise | nvm/aux_str/aux_str.py:136 | a one-character pattern with a one-character replacement rewrites the text position by position |
| CleanStr.ApplyMatchersPointwise | nvm/aux_str/aux_str.py:135-136 | a key of one-character patterns, with a one-character replacement that no pattern takes, rewrites exactly the taken positions |
| CleanStrMappings.TablesShape | nvm/aux_str/clean_str_mappings.py:4-54 | of the constants `Tiny`, `Large` and `Huge` (the three tables): TINY has two groups; LARGE is TINY plus three groups; HUGE equals LARGE; every group has one key; every replacement is one character; every pattern is a literal |
| CleanStrMappings.ControlSpacesOver | nvm/aux_str/clean_str_mappings.py:6-10 | the LF/CR/HT rule inserts a character that none of its patterns contains |
| CleanStrMappings.DashesOver | nvm/aux_str/clean_str_mappings.py:13-20 | the dash rule inserts a character that none of its patterns contains |
| CleanStrMappings.InvisibleSpacesOver | nvm/aux_str/clean_str_mappings.py:26-34 | the invisible-space rule inserts a character that none of its patterns contains |
| CleanStrMappings.QuotesOver | nvm/aux_str/clean_str_mappings.py:37-50 | the quote rules insert characters that none of their patterns contains |
| CleanStrMappings.TablesOver | nvm/aux_str/clean_str_mappings.py:4-54 | every table inserts only space, hyphen, apostrophe or double quote, and none of its patterns contains any of them |
| CleanStrMappings.TinyIdempotent | nvm/aux_str/clean_str_mappings.py:4-22 | cleaning with TINY twice is cleaning once |
| CleanStrMappings.LargeIdempotent | nvm/aux_str/clean_str_mappings.py:24-52 | cleaning with LARGE twice is cleaning once |
| CleanStrMappings.HugeIdempotent | nvm/aux_str/clean_str_mappings.py:54 | cleaning with HUGE twice is cleaning once |
| CleanStrMappings.LargeClears | nvm/aux_str/clean_str_mappings.py:24-52 | no pattern of LARGE is left in a text cleaned with LARGE |
| CleanStrMappings.TinyClears | nvm/aux_str/clean_str_mappings.py:4-22 | no pattern of TINY is left in a text cleaned with TINY |
| CleanStrMappings.NbspReplaced | nvm/aux_str/clean_str_mappings.py:33 | the six-character pattern `&nbsp;` is replaced as a whole: `a&nbsp;b` becomes `a b` |
| CleanStrMappings.TinyByKeys | nvm/aux_str/clean_str_mappings.py:4-22 | TINY's substitution stage is the LF/CR/HT key, then the dash key |
| CleanStrMappings.ControlSpacesMap | nvm/aux_str/clean_str_mappings.py:6-10 | the first TINY key turns each LF, CR and HT into a space and keeps every other character |
| CleanStrMappings.TinyKeepsPrintable | nvm/aux_str/clean_str_mappings.py:4-22 | TINY's substitutions leave visible ASCII text and spaces unchanged |
| CleanStrMappings.TinyExampleSubstitutions | nvm/tests/test_aux_str.py:12-15 | TINY's substitution stage on the test text turns the tab, line feeds and carriage return into spaces |
| CleanStrMappings.TinyPieces | nvm/aux_str/aux_str.py:133-136 | TINY on a text in three pieces substitutes each piece on its own when the dash key changes nothing |
| CleanStrMappings.ControlSpacesPieces | nvm/aux_str/clean_str_mappings.py:6-10 | the LF/CR/HT key on a text in three pieces substitutes each piece on its own |
| CleanStrMappings.TinyExampleWhitespace | nvm/tests/test_aux_str.py:12-15 | collapsing and stripping that text gives `one two three four...` |
| CleanStrMappings.TinyExample | nvm/tests/test_aux_str.py:12-15 | cleaning `"  one two  three\t \n\n\r four...  "` with TINY gives `"one two three four..."` |
| CleanStrExamples.AbcDeletes | nvm/tests/test_aux_str.py:23-27 | deleting `[abc]` from `abcABC` leaves `ABC` |
| CleanStrExamples.ClassExample | nvm/tests/test_aux_str.py:23-27 | cleaning `abcABC` with `{"": [[abc]]}` gives `ABC` |
| CleanStrExamples.AbcIgnoreCaseDeletes | nvm/tests/test_aux_str.py:29-33 | deleting `[abc]` with `re.I` from `abcABC` leaves nothing |
| CleanStrExamples.ClassIgnoreCaseExample | nvm/tests/test_aux_str.py:29-33 | cleaning `abcABC` with the case-blind class gives the empty text |
| CleanStrExamples.UpperAbcMap | nvm/tests/test_aux_str.py:36 | the key `"a": list("ABC")` turns each of A, B and C into `a` and keeps the rest |
| CleanStrExamples.UpperEfgMap | nvm/tests/test_aux_str.py:36 | the key `"e": list("EFG")` turns each of E, F and G into `e` and keeps the rest |
| CleanStrExamples.KeyASubstitutes | nvm/tests/test_aux_str.py:35-39 | the first key turns `ABCEFG` into `aaaEFG` |
| CleanStrExamples.KeyESubstitutes | nvm/tests/test_aux_str.py:35-39 | the second key turns `aaaEFG` into `aaaeee` |
| CleanStrExamples.TwoGroupsExample | nvm/tests/test_aux_str.py:35-39 | two one-key groups clean `ABCEFG` to `aaaeee` |
| CleanStrExamples.TwoGroupsSubstitute | nvm/tests/test_aux_str.py:35-39 | the substitution stage of that test turns `ABCEFG` into `aaaeee` |
| CleanStrExamples.KeysSplit | nvm/tests/test_aux_str.py:41-45 | one group with both keys substitutes exactly like the two groups |
| CleanStrExamples.OneGroupExample | nvm/tests/test_aux_str.py:41-45 | one group with both keys cleans `ABCEFG` to `aaaeee` |
| AuxBids.LastComponent | nvm/aux_bids/__init__.py:110-114 | the last component of a path that is neither empty nor `.`: it holds no `/`, is not `.`, and is one of the components unless it is empty |
| AuxBids.Name | nvm/aux_bids/__init__.py:114 | `Path(fn0).name` holds no `/` and is never `.` |
| AuxBids.NameOfFile | nvm/aux_bids/__init__.py:110-114 | a proper file name is its own name, whatever directory is put in front of it |
| AuxBids.TrimDots | nvm/aux_bids/__init__.py:116 | `lstrip(".")`: a suffix of the text, everything cut is a dot, and the result does not start with a dot |
| AuxBids.Suffixes | nvm/aux_bids/__init__.py:116 | each suffix is a dot followed by dot-free text |
| AuxBids.Ext | nvm/aux_bids/__init__.py:116 | `"".join(fn0.suffixes)`: empty exactly when there are no suffixes, and otherwise starting with a dot |
| AuxBids.Stem | nvm/aux_bids/__init__.py:122 | `name0.split(".")[0]`: the dot-free prefix of the name that ends at the first dot or at the end |
| AuxBids.ExtWithSuffixes | nvm/aux_bids/__init__.py:116 | when there are suffixes, the extension is a dot and the dot-pieces after the first, joined by dots |
| AuxBids.ExtWithoutSuffixes | nvm/aux_bids/__init__.py:116 | a name that ends with a dot, or holds no dot past its leading dots, has an empty extension |
| AuxBids.ExtIsTail | nvm/aux_bids/__init__.py:116 | the extension is always a tail of the name |
| AuxBids.StemExt | nvm/aux_bids/__init__.py:116-122 | for a name that neither starts nor ends with a dot, stem followed by extension is the name |
| AuxBids.NonEmptyMembers | nvm/aux_bids/__init__.py:124 | the kept tokens are exactly the non-empty pieces |
| AuxBids.NonEmptyConcat | nvm/aux_bids/__init__.py:124 | dropping empty pieces loses no character |
| AuxBids.NonEmpty | nvm/aux_bids/__init__.py:124 | the filter `if len(item)`: no longer than its input and every kept piece is non-empty |
| AuxBids.Tokens | nvm/aux_bids/__init__.py:124 | every token is non-empty and holds no underscore |
| AuxBids.TokensCover | nvm/aux_bids/__init__.py:124 | the tokens glued together are the stem without its underscores |
| AuxBids.TokensWithout | nvm/aux_bids/__init__.py:124 | a character absent from the stem is absent from every token |
| AuxBids.Key | nvm/aux_bids/__init__.py:126 | `item.split("-")[0]`: the dash-free prefix that ends at the first dash or at the end |
| AuxBids.Value | nvm/aux_bids/__init__.py:126 | `item.split("-")[1]` holds no dash |
| AuxBids.ValueBetweenDashes | nvm/aux_bids/__init__.py:126 | the value is the text between the first dash and the second dash, or the end |
| AuxBids.KeyValueWhole | nvm/aux_bids/__init__.py:126 | a token with one dash is its tag, the dash and its value |
| AuxBids.Keys | nvm/aux_bids/__init__.py:126 | the tags of the dictionary, in order |
| AuxBids.Lookup | nvm/aux_bids/__init__.py:126 | `d.get(k)` is absent exactly when `k` is not a tag, and otherwise gives a stored pair |
| AuxBids.Insert | nvm/aux_bids/__init__.py:126 | `d[k] = v` keeps the tag order of an existing tag and appends a new tag at the end |
| AuxBids.InsertLookup | nvm/aux_bids/__init__.py:126 | after `d[k] = v`, `d[k]` is `v` and every other tag keeps its value |
| AuxBids.InsertDistinct | nvm/aux_bids/__init__.py:126 | inserting keeps the tags distinct |
| AuxBids.InsertNew | nvm/aux_bids/__init__.py:126 | inserting a new tag appends its pair |
| AuxBids.Props | nvm/aux_bids/__init__.py:126 | the dictionary comprehension: no tag twice |
| AuxBids.PropsLacks | nvm/aux_bids/__init__.py:126 | a tag that no dashed token carries is absent |
| AuxBids.PropsLastWins | nvm/aux_bids/__init__.py:126 | a tag's value is the value of the last dashed token that carries it |
| AuxBids.PropsOfDistinct | nvm/aux_bids/__init__.py:126 | when no two dashed tokens share a tag, the dictionary is their (tag, value) pairs in token order |
| AuxBids.PairsAppend | nvm/aux_bids/__init__.py:126 | one more dashed token adds its (tag, value) pair at the end |
| AuxBids.Suff | nvm/aux_bids/__init__.py:128 | no suffix holds a dash |
| AuxBids.SuffMembers | nvm/aux_bids/__init__.py:128 | the suffixes are exactly the tokens without a dash |
| AuxBids.SuffOfTokens | nvm/aux_bids/__init__.py:124-128 | suffixes taken from tokens are non-empty and hold no underscore |
| AuxBids.Dashed | nvm/aux_bids/__init__.py:126 | the tokens the comprehension reads all hold a dash |
| AuxBids.DashedMembers | nvm/aux_bids/__init__.py:126 | those tokens are exactly the ones with a dash |
| AuxBids.Partition | nvm/aux_bids/__init__.py:124-128 | the suffixes and the dashed tokens together number the tokens; the tags are exactly the tags of the dashed tokens |
| AuxBids.KeyOrigin | nvm/aux_bids/__init__.py:126 | every tag comes from some dashed token |
| AuxBids.KeyPresent | nvm/aux_bids/__init__.py:126 | every dashed token's tag is present |
| AuxBids.NonEmptyAppend | nvm/aux_bids/__init__.py:124 | the filter over a concatenation is the filter over each part |
| AuxBids.SuffAppend | nvm/aux_bids/__init__.py:128 | the same for the suffix list |
| AuxBids.DashedAppend | nvm/aux_bids/__init__.py:126 | the same for the dashed tokens |
| AuxBids.DictFromBidsFilename | nvm/aux_bids/__init__.py:110-134 | `dict_from_bids_filename`: the tags are distinct; every suffix is non-empty and holds no dash and no underscore; the extension is a tail of the file name |
| AuxBids.DirectoryIrrelevant | nvm/aux_bids/__init__.py:110-114 | the result is the same whatever directory the file is in |
| AuxBidsExample.SampleResult | nvm/aux_bids/__init__.py:52-67 | the docstring example gives tags sub, ses, task, space and desc with values s001, morning, rest, T1w and preproc; suffixes insert, bold and info; and the extension `.the.funky_ext.nii.gz` |
| AuxBidsExample.SampleNameIsName | nvm/aux_bids/__init__.py:52-57 | the sample path's name is the part after `data-001/` |
| AuxBidsExample.SampleStemAndExt | nvm/aux_bids/__init__.py:116-122 | the sample's stem is the part before the first dot and its extension is `.the.funky_ext.nii.gz` |
| AuxBidsExample.SampleTokens | nvm/aux_bids/__init__.py:124 | the double underscore yields an empty piece, which is dropped |
| AuxBidsExample.SampleSort | nvm/aux_bids/__init__.py:126-128 | the sample's suffixes are insert, bold and info, and its tagged tokens keep their order |
| AuxBidsExample.SamplePairs | nvm/aux_bids/__init__.py:61-65 | the sample's tags are distinct and pair with the docstring's values |
| AuxBidsExample.SampleProps | nvm/aux_bids/__init__.py:61-65 | the sample's dictionary is the docstring's, in the docstring's order |
| AuxBidsExample.TagOf | nvm/aux_bids/__init__.py:126 | a token made of a tag, a dash and a dash-free value splits into that tag and value |
| AuxBidsExample.PairsOf | nvm/aux_bids/__init__.py:126 | such tokens give their pairs in order, and distinct tags make them distinct |
| AbcDashXyz.Next | nvm/aux_str/regex.py:6 | one step of the recogniser: a letter moves into a word only from the start, from inside a word or after a dash; a dash and an asterisk are accepted only inside a word |
| AbcDashXyz.Accepts | nvm/aux_str/regex.py:6 | the pattern matches the whole string: an accepted string is non-empty and starts with a letter; `AcceptsExactly` ties it to the grammar |
| AbcDashXyz.LeadingNonLetterFails | nvm/aux_str/regex.py:6 | a string whose first character is not a letter fails |
| AbcDashXyz.RunAppend | nvm/aux_str/regex.py:6 | reading `a + b` is reading `a`, then `b` |
| AbcDashXyz.FailedStays | nvm/aux_str/regex.py:6 | once the scan fails, it stays failed |
| AbcDashXyz.StarEnds | nvm/aux_str/regex.py:6 | nothing may follow the asterisk |
| AbcDashXyz.RunWord | nvm/aux_str/regex.py:6 | `[a-z]+` read where a letter may come ends inside a word |
| AbcDashXyz.RunJoin | nvm/aux_str/regex.py:6 | `[a-z]+(\-[a-z]+)*` read from the start ends inside a word |
| AbcDashXyz.InWordPieces | nvm/aux_str/regex.py:6 | a scan that ends inside a word has read words separated by single dashes |
| AbcDashXyz.AfterStarShape | nvm/aux_str/regex.py:6 | a scan that ends after the asterisk read dash-joined words and then one `*` |
| AbcDashXyz.DerivedAccepted | nvm/aux_str/regex.py:6 | every string of the grammar is accepted |
| AbcDashXyz.AcceptedDerived | nvm/aux_str/regex.py:6 | every accepted string is in the grammar: its words are the dash-pieces of the text before the optional asterisk |
| AbcDashXyz.AcceptsExactly | nvm/aux_str/regex.py:6 | the recogniser accepts a string if and only if the grammar derives it |
| AbcDashXyz.RejectsInfix | nvm/aux_str/regex.py:6 | a text that fails from every state rejects every string containing it |
| AbcDashXyz.DashBlocks | nvm/aux_str/regex.py:6 | `--` and `-*` fail from every state |
| AbcDashXyz.StrangeBlocks | nvm/aux_str/regex.py:6 | any character other than a letter, `-` and `*` fails from every state |
| AbcDashXyz.RejectsEnds | nvm/aux_str/regex.py:6 | the empty string, a lone `*`, a string starting with `-` or `*`, and a string ending with `-` are rejected |
| AbcDashXyz.RejectsDashPairs | nvm/aux_str/regex.py:6 | a string containing `--` or `-*` is rejected |
| AbcDashXyz.RejectsStrange | nvm/aux_str/regex.py:6 | a digit, underscore, space or punctuation other than `-` and `*` anywhere rejects the string |
| AbcDashXyz.StarOnlyLast | nvm/aux_str/regex.py:6 | in an accepted string, an asterisk can stand only at the last position |
| AbcDashXyz.SwapCase | nvm/aux_str/regex.py:6 | swapping the case keeps a character a letter or a non-letter, and leaves non-letters alone |
| AbcDashXyz.CaseBlindRun | nvm/aux_str/regex.py:6 | strings that differ only in the case of some letters drive the recogniser to the same state |
| AbcDashXyz.CaseBlind | nvm/aux_str/regex.py:6 | strings that differ only in the case of some letters get the same verdict |

## Left out

- `str(text)` at aux_str.py line 131 is not modelled. The model takes a `string` directly.
- The default argument `mappings=CLEAN_STR_MAPPINGS_TINY` (aux_str.py line 21) has no counterpart, since Dafny functions have no default arguments. A call without mappings is `Clean(text, Tiny)`, and `CleanStrMappings.TinyExample` states the docstring example in that form.
- CleanStr.ReplaceAll: inserts the replacement verbatim. `re.sub` also processes backslash escapes in the replacement (aux_str.py line 136): a key `"\\n"` would insert a line feed, and `"\\1"` or a lone `"\\"` would raise an error. No key of the shipped tables or the tests holds a backslash, so the model agrees with the source on all of them.
- `log0` and its `debug` calls (aux_bids `__init__.py` lines 111-133) are not modelled. Neither are the unused locals `path0`, `tags0` and `vals0`. None of them changes the result.
- General regular expressions in mapping patterns are not modelled. A pattern is a literal text or a one-character class. That covers every shipped table and every test except one.
- The test `test_clean_str_zero` (`.*` deletes everything, test_aux_str.py lines 17-21) depends on how the engine treats empty matches. Empty matches are not modelled.
- `re.I` on a class is written out with both cases. It is not a flag of the model.
- Python's `$` also matches just before a trailing newline, so `"abc\n"` matches the pattern. `AbcDashXyz.Accepts` models only the fully anchored reading.
- `re.IGNORECASE` also lets some non-ASCII letters match `[a-z]`, such as U+212A (Kelvin sign) and U+017F (long s). `AbcDashXyz.IsLetter` is ASCII only.
- `pathlib` parsing is modelled for POSIX paths with `/` as the only separator. Windows drives and `\` separators are not modelled. Suffixes follow `PurePath.suffixes`: none when the name ends with a dot, and leading dots are ignored.
- `AuxBids.Props` keeps the dictionary as a sequence of pairs in first-insertion order. Python's `dict` equality ignores order, but `AuxBidsExample.SampleResult` states the order too.
- `chdir`, `now`, `yamlstr`, `json_serializable_or_repr`, the package re-exports and `_temp_test_awkward_mappings` are not part of this model.

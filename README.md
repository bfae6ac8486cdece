# A verified model of `upgrade_pythoncapi.py`

`upgrade_pythoncapi.py` rewrites the source text of C extension modules so
that they use the accessor functions of newer Python C API releases. It
rewrites `op->ob_type` to `Py_TYPE(op)`, `Py_TYPE(op) = t;` to
`Py_SET_TYPE(op, t);`, `PyObject_NEW(` to `PyObject_New(`, and so on. When a
rewrite needs a function that only newer Python versions have, it prepends
`#include "pythoncapi_compat.h"` to the file.

This project models that upgrader in Dafny:

- `wrappers.dfy` (module `Wrappers`) holds the `Option` and `Result` values.
- `text.dfy` (module `Text`) holds the character classes and the few `str`
  operations the script uses: `in`, `startswith`/`endswith`, `split(',')`,
  `','.join` and `strip()`.
- `patterns.dfy` (module `Patterns`) holds the four regular-expression
  shapes the operations use, each as a hand-written matcher.
  - The whole-word rename `\bOLD\b( *\()`.
  - `get_member_regex`, `set_member_regex` and `call_assign_regex`, built on
    the expression grammar `EXPR_REGEX`.
  - Each matcher explores the choice points in the order Python's
    backtracking engine does: the latest choice first, each greedy
    repetition from its longest extent down.
  - `re.sub` is modelled as a left-to-right scan (`Sub`) that replaces the
    leftmost match and resumes after it.
- `pattern_laws.dfy` (module `PatternLaws`) proves what those rules promise
  against an independent grammar of expressions and assignments: every
  match the matchers make has the shape the regular expression describes.
- `pattern_completeness.dfy` (module `PatternCompleteness`) proves the
  converse: every text of that shape is matched.
- `rule_cases.dfy` (module `RuleCases`) evaluates the rules on inputs of the
  upgrader's own tests.
- `operations.dfy` (module `Operations`) holds the thirteen operation classes
  as values and the `OPERATIONS` order. Each value has a name, the REPLACE
  table and whether the operation needs the compatibility header.
- `selection.dfy` (module `Selection`) states what `--operations` selects.
- `upgrader.dfy` (module `Upgrader`) holds `add_line`, `is_c_filename` and a
  functional account of one `_patch` run, with its lemmas.
  - Its class `Patcher` keeps the patcher's mutable fields.
  - The methods `GetOperations`, `AddPythoncapiCompat`, `OperationPatch`,
    `PatchContent`, `Patch` and `PatchFile` update those fields in place
    with the source's loops.
  - Each method is proved against the functions.
- `patch_cases.dfy` (module `PatchCases`) is a worked `_patch` run with and
  without `--no-compat`, and the release macros `PyMem_Del`, `PyMem_DEL`,
  `PyObject_Del` and `PyObject_DEL` rewritten by their operations.

Python's `_has_pythoncapi_compat` may be `None`, `True` or `False`. The model
holds it as an `Option<bool>`, and `add_pythoncapi_compat` tests its Python
truth value (`Truthy`). `\w` and `\b` are modelled on ASCII word characters.
`\s` and `str.strip()` use the whitespace set of `str.isspace()`.

Some behaviour of the patterns as written is made explicit here:

- The value group `([^=].*)` of `call_assign_regex` runs to the LAST `;` of
  its line, so `Py_TYPE(o) = t; x;` becomes `Py_SET_TYPE(o, t; x);`
  (`RuleCases.LastSemicolonCase`).
- In `set_member_regex` the value group is followed by `\s*;`, and `\s`
  matches a newline, so the match can end on a later line. With
  `o->ob_type = t; x;` followed by a line holding only `;`, the value group
  is `t; x;` and the result is `Py_SET_TYPE(o, t; x;);`. A newline can also
  be the value's first character: `o->ob_type =` followed by a line holding
  only `;` becomes `Py_SET_TYPE(o, ` followed by that newline and `);`.
- `call_assign_regex` has no word boundary in front of the name.

Most functions that define the model carry no `ensures` of their own. Each
has a row below that says what it models and names the lemmas that state its
properties.

## Model

| member | source | states |
|---|---|---|
| `Text.Strip` | upgrade_pythoncapi.py:317 | models `str.strip()`; stated by `StripTrims` |
| `Text.StripTrims` | upgrade_pythoncapi.py:317 | `strip()` removes exactly a leading and a trailing run of whitespace: the result is a substring of the input, and all that is cut off on either side is whitespace |
| `Text.Split` | upgrade_pythoncapi.py:313 | `split(',')` gives at least one piece, and no piece holds the separator |
| `Text.JoinSplit` | upgrade_pythoncapi.py:313 | `split(',')` keeps every character but the separators: joining the pieces gives the input back |
| `Text.SplitJoin` | upgrade_pythoncapi.py:313 | splitting a join of separator-free pieces gives those pieces back, empty pieces included |
| `Operations.Rewrite` | upgrade_pythoncapi.py:75-78 | models the loop of `Operation.patch`, the REPLACE table's substitutions one after the other; stated by `RewriteWithoutMatch`, `PatchCases.RewriteOne` and the release-macro cases |
| `Operations.RewriteAll` | upgrade_pythoncapi.py:75-78 | every operation's substitutions in order, with no header added; stated by `NoInsertionWhenPresentOrDisabled` and `PresentIncludeMeansPureRewrite` |
| `Operations.AllOperationsDistinct` | upgrade_pythoncapi.py:267-285 | `OPERATIONS`, the constant `AllOperations`, lists thirteen operations with distinct names |
| `Selection.Update` | upgrade_pythoncapi.py:317-328 | models one iteration of the first loop of `_get_operations`; stated by `UpdateMembership` |
| `Selection.Wanted` | upgrade_pythoncapi.py:313-328 | models the whole first loop; stated by `WantedIffLastEntryAdds` |
| `Selection.Filter` | upgrade_pythoncapi.py:330-337 | models the second loop; stated by `FilterIsSubsequence` |
| `Selection.SelectOperations` | upgrade_pythoncapi.py:312-345 | models `_get_operations` over `OPERATIONS`; stated by `SelectionIsOrderedAndChecked`, `UnknownNameIsReported` and `SelectAll` |
| `Selection.UpdateMembership` | upgrade_pythoncapi.py:317-328 | a name is wanted after an entry if and only if the entry asks for it, or it was wanted before and the entry is not `-name` |
| `Selection.WantedIffLastEntryAdds` | upgrade_pythoncapi.py:315-328 | a name is wanted after the whole list if and only if some entry asks for it and no later entry removes it, so left-to-right order matters |
| `Selection.FilterIsSubsequence` | upgrade_pythoncapi.py:330-337 | the second loop keeps the table's order and takes exactly the operations whose name is wanted |
| `Selection.SelectionIsOrderedAndChecked` | upgrade_pythoncapi.py:312-345 | selection succeeds if and only if every wanted name is an operation. The result is a subsequence of the table with distinct names, holding exactly the wanted operations. Otherwise the error holds exactly the wanted names no operation has |
| `Selection.UnknownNameIsReported` | upgrade_pythoncapi.py:339-343 | an unknown name that no later entry removes makes the selection fail and is listed in the error |
| `Selection.SelectAll` | upgrade_pythoncapi.py:463-466 | the default `all` selects every operation, in `OPERATIONS` order |
| `Upgrader.IsCFilename` | upgrade_pythoncapi.py:62-63 | models `is_c_filename`; stated by `IsCFilenameIff` |
| `Upgrader.AddCompat` | upgrade_pythoncapi.py:358-364 | models `add_pythoncapi_compat` on the state of a run; stated by `IncludeAddedAtMostOnce` and `Patcher.AddPythoncapiCompat` |
| `Upgrader.OpPatch` | upgrade_pythoncapi.py:75-81 | models `Operation.patch`; stated by `UnchangedGainsNoInclude` and `OpPatchInsertsOnlyWhenNeeded` |
| `Upgrader.RunOps` | upgrade_pythoncapi.py:372-377 | models the loop of `_patch`; stated by `IncludeAddedAtMostOnce`, `AppliedInOrder`, `AppliedAreTheChangingOps` and `NothingAppliedMeansUnchanged` |
| `Upgrader.PatchRun` | upgrade_pythoncapi.py:366-382 | models `_patch`, the include test included; stated by `NoInsertionWhenPresentOrDisabled`, `PresentIncludeMeansPureRewrite` and `Patcher.PatchContent` |
| `Upgrader.IsCFilenameIff` | upgrade_pythoncapi.py:62-63 | a file name is a C file name if and only if it ends in `.c` or `.h` |
| `Upgrader.AddLine` | upgrade_pythoncapi.py:347-356 | the result contains the line and a newline. It equals the input if and only if the input already contained that line. Otherwise it is exactly line, newline, blank line, input |
| `Upgrader.AddLineIdempotent` | upgrade_pythoncapi.py:347-356 | adding a line twice is adding it once |
| `Upgrader.UnchangedGainsNoInclude` | upgrade_pythoncapi.py:75-81 | an operation whose substitutions leave the text unchanged returns the state unchanged: no include, no count, no recorded name |
| `Upgrader.OpPatchInsertsOnlyWhenNeeded` | upgrade_pythoncapi.py:75-81 | the count of insertions changes only when the operation needs the header, its rules changed the text and the include was not yet present. The count then grows by one and the text is the rewritten text with the include added |
| `Upgrader.IncludeAddedAtMostOnce` | upgrade_pythoncapi.py:358-364 | within one run the count grows by at most one. It grows if and only if the include went from absent to present. Once present, it stays present |
| `Upgrader.PresentIncludeMeansPureRewrite` | upgrade_pythoncapi.py:358-360 | when the include counts as present, a run is the plain fold of the rewrites and inserts nothing |
| `Upgrader.NoInsertionWhenPresentOrDisabled` | upgrade_pythoncapi.py:366-371 | with `--no-compat`, or with either spelling of the include in the input, `_patch` inserts nothing and its text is the left fold of the operations' rewrites |
| `Upgrader.AppliedInOrder` | upgrade_pythoncapi.py:372-377 | the recorded names only grow, and what a run adds is a subsequence of the operations' names in the order they ran |
| `Upgrader.AppliedAreTheChangingOps` | upgrade_pythoncapi.py:372-377 | with distinct names, an operation's name is recorded if and only if its patch changed the running text |
| `Upgrader.NothingAppliedMeansUnchanged` | upgrade_pythoncapi.py:372-382 | a run that records no operation returns its input text unchanged |
| `Upgrader.RewriteWithoutMatch` | upgrade_pythoncapi.py:75-78 | a REPLACE table none of whose rules matches anywhere leaves the text unchanged |
| `Upgrader.Patcher.constructor` | upgrade_pythoncapi.py:294-302 | a new patcher has zero insertions and both temporaries set to `None` |
| `Upgrader.Patcher.Create` | upgrade_pythoncapi.py:294-304 | construction fails with the unknown names exactly when the selection does. Otherwise it holds the selected operations and the `--no-compat` flag |
| `Upgrader.Patcher.GetOperations` | upgrade_pythoncapi.py:312-345 | `_get_operations` over `OPERATIONS` returns exactly the selection `SelectOperations` states |
| `Upgrader.Patcher.GetOperationsFrom` | upgrade_pythoncapi.py:313-345 | the two loops compute the selection. The first builds the wanted set entry by entry. The second takes each wanted operation in table order and discards its name, and what is left is the error |
| `Upgrader.Patcher.AddPythoncapiCompat` | upgrade_pythoncapi.py:358-364 | if the include is marked present, nothing changes. Otherwise the line is added, the flag is set and the count grows by one. The recorded names are untouched |
| `Upgrader.Patcher.OperationPatch` | upgrade_pythoncapi.py:75-81 | applies the REPLACE table in sequence, then asks for the include only if the text changed and the operation needs it |
| `Upgrader.Patcher.PatchContent` | upgrade_pythoncapi.py:366-382 | `_patch` returns the text and the recorded names of the run over the selected operations and updates the count. Both temporaries are `None` on exit |
| `Upgrader.Patcher.Patch` | upgrade_pythoncapi.py:384-385 | `patch` returns the text of `_patch` |
| `Upgrader.Patcher.PatchFile` | upgrade_pythoncapi.py:387-415 | the file counts as changed, and is rewritten, if and only if the patched text differs from the old text |
| `Patterns.MatchAt` | upgrade_pythoncapi.py:78 | a match at a position is never empty and never runs past the end of the text, so the scan of `re.sub` always advances |
| `Patterns.Sub` | upgrade_pythoncapi.py:78 | models `re.sub`, a left-to-right scan that replaces the leftmost match and resumes after it; stated by `SubFromNoMatch`, `SubChangedMeansMatch` and the rule cases |
| `PatternLaws.SubFromNoMatch` | upgrade_pythoncapi.py:78 | where a rule matches at no position, the substitution returns the text unchanged |
| `PatternLaws.SubChangedMeansMatch` | upgrade_pythoncapi.py:78 | a substitution that changed the text matched at some position |
| `PatternLaws.RenameMatchAt` | upgrade_pythoncapi.py:153-154 | a rename matches at a position if and only if the old name occurs there as a whole word followed by spaces and `(`. Only the name is replaced; the spaces and `(` are kept |
| `PatternLaws.RenameIsWholeWord` | upgrade_pythoncapi.py:170-174 | a rename never fires inside a longer identifier: no word character precedes or follows the matched name |
| `PatternLaws.RenameWithoutName` | upgrade_pythoncapi.py:190-194 | a rename whose old name does not occur leaves the text unchanged |
| `PatternLaws.ExprEndsSound` | upgrade_pythoncapi.py:18-24 | every candidate end the expression matcher offers closes a text of the expression grammar: identifiers with `[...]` indices chained by `->` or `.` |
| `PatternLaws.GetMemberSound` | upgrade_pythoncapi.py:27-40 | a member read is rewritten to `FUNC(E)` only if `E` is a grammar expression starting at a word boundary and not right after `Py_CLEAR(`. The member must be a whole word and no `=` may follow it, even after whitespace |
| `PatternLaws.SetMemberSound` | upgrade_pythoncapi.py:43-51 | a member write is rewritten to `SETTER(E, V);` only if `E` is a grammar expression and `V` does not start with `=` and holds no newline after its first character (the first character may itself be a newline). The match ends at a `;` after whitespace, which may include newlines |
| `PatternLaws.MemberNeedsWordStart` | upgrade_pythoncapi.py:27-29 | the member rules match only where a letter starts after a word boundary |
| `PatternLaws.CallAssignNeedsName` | upgrade_pythoncapi.py:54-59 | the call-assignment rule matches only where the getter's name occurs |
| `PatternLaws.CallAssignSound` | upgrade_pythoncapi.py:54-59 | `NAME(A) = V;` is rewritten to `SETTER(A, V);` only if the text has that shape, spaces allowed around each token. `A` must be non-empty with no newline, and `V` must not start with `=`, so a comparison `==` is never taken for an assignment |
| `PatternCompleteness.BracketsEndComplete` | upgrade_pythoncapi.py:20 | a run of `[...]` indices that stops where no further `[` follows is consumed whole by the greedy `(?:\[[^]]+\])*` |
| `PatternCompleteness.ExprEndsComplete` | upgrade_pythoncapi.py:18-24 | every grammar expression that stops where no identifier character or `[` follows is among the candidate ends the expression matcher offers: the converse of `ExprEndsSound` |
| `PatternCompleteness.ArrowMemberEndComplete` | upgrade_pythoncapi.py:29 | spaces, `->`, spaces and a member name that ends at a word boundary are matched by ` *-> *MEMBER\b`, ending at that boundary |
| `PatternCompleteness.GetMemberComplete` | upgrade_pythoncapi.py:27-40 | a grammar expression starting at a word boundary and not right after `Py_CLEAR(`, followed by `->` and the member as a whole word, with no `=` after it even past whitespace, is matched by the member-read rule: the converse of `GetMemberSound` |
| `PatternCompleteness.ValueAtComplete` | upgrade_pythoncapi.py:43-59 | padding, a value whose first character is not `=` and that has no newline after it, padding and `;` are matched by `([^=].*) *;` or `([^=].*)\s*;` |
| `PatternCompleteness.SetMemberComplete` | upgrade_pythoncapi.py:43-51 | a grammar expression at a word boundary, then `->`, the member as a whole word, whitespace, `=`, and a value of that shape are matched by the member-write rule: the converse of `SetMemberSound` |
| `PatternCompleteness.CallAssignComplete` | upgrade_pythoncapi.py:54-59 | `NAME(A) = V;`, spaces allowed around each token, with `A` non-empty and free of newlines and `V` not starting with `=`, is matched by the call-assignment rule: the converse of `CallAssignSound` |
| `RuleCases.RenameCallCase` | tests/test_upgrade_pythoncapi.py:290-299 | `PyObject_NEW(x)` becomes `PyObject_New(x)` |
| `RuleCases.RenameNeedsWholeWordCase` | tests/test_upgrade_pythoncapi.py:290-299 | the `PyObject_NEW` rule leaves `PyObject_NEW_VAR(t)` alone |
| `RuleCases.RenameNeedsCallCase` | tests/test_upgrade_pythoncapi.py:301-307 | a bare `PyObject_NEW;` is not renamed |
| `RuleCases.MemberReadCase` | tests/test_upgrade_pythoncapi.py:132 | `a->b->ob_type` becomes `Py_TYPE(a->b)` |
| `RuleCases.CallResultMemberCase` | tests/test_upgrade_pythoncapi.py:137 | `func()->ob_type` is left alone |
| `RuleCases.ClearArgumentCase` | tests/test_upgrade_pythoncapi.py:383-386 | `Py_CLEAR(frame->f_code);` is left alone |
| `RuleCases.AssignedMemberNotReadCase` | tests/test_upgrade_pythoncapi.py:378-381 | `frame->f_code = code;` is not rewritten by the read rule |
| `RuleCases.MemberWriteCase` | tests/test_upgrade_pythoncapi.py:207-225 | `o->ob_type = t;` becomes `Py_SET_TYPE(o, t);` |
| `RuleCases.CallAssignCase` | tests/test_upgrade_pythoncapi.py:207-225 | `Py_TYPE(o) = t;` becomes `Py_SET_TYPE(o, t);` |
| `RuleCases.ComparisonCase` | tests/test_upgrade_pythoncapi.py:227-233 | `Py_TYPE(a) == t;` is left alone |
| `RuleCases.LastSemicolonCase` | upgrade_pythoncapi.py:58 | the value group of the call-assignment rule runs to the last `;` of the line: `Py_TYPE(o) = t; x;` becomes `Py_SET_TYPE(o, t; x);` |
| `PatchCases.SetTypePatchCase` | tests/test_upgrade_pythoncapi.py:207-225 | `_patch` with Py_SET_TYPE on `o->ob_type = t;` gives the include, a blank line and `Py_SET_TYPE(o, t);`. It counts one insertion and records `Py_SET_TYPE` |
| `PatchCases.SetTypeNoCompatCase` | tests/test_upgrade_pythoncapi.py:928-942 | with `--no-compat` the same run gives `Py_SET_TYPE(o, t);` with no include and no insertion counted |
| `PatchCases.RewriteOne` | upgrade_pythoncapi.py:75-78 | when no earlier rule of a table occurs in the text and no later rule occurs in what one rule makes of it, the table's sequence of substitutions is that one rule's substitution |
| `PatchCases.RenameAtStart` | upgrade_pythoncapi.py:153-154 | a rename applied to a text that opens with the old name and `(` replaces just that name and keeps the rest |
| `PatchCases.ReleaseRewrite` | upgrade_pythoncapi.py:169-175 | a release macro called at the start of the text becomes the function its rule names, once the other rules of the table are shown not to fire |
| `PatchCases.PyMemDelCase` | tests/test_upgrade_pythoncapi.py:309-324 | the PyMem_MALLOC operation's substitutions turn `PyMem_Del(ptr);` into `PyMem_Free(ptr);` |
| `PatchCases.PyMemDELCase` | tests/test_upgrade_pythoncapi.py:309-324 | the PyMem_MALLOC operation's substitutions turn `PyMem_DEL(ptr);` into `PyMem_Free(ptr);` |
| `PatchCases.PyObjectDelCase` | tests/test_upgrade_pythoncapi.py:326-341 | the PyObject_MALLOC operation's substitutions turn `PyObject_Del(ptr);` into `PyObject_Free(ptr);` |
| `PatchCases.PyObjectDELCase` | tests/test_upgrade_pythoncapi.py:326-341 | the PyObject_MALLOC operation's substitutions turn `PyObject_DEL(ptr);` into `PyObject_Free(ptr);` |

## Left out

- File and directory handling is not modelled: reading and writing files,
  `.old` backups, `os.walk` and `walk`/`_walk_dir`. Of `patch_file`, only
  the decision to write nothing when the text is unchanged is modelled
  (`PatchFile`).
- Command-line parsing, `usage`, `log`/`warning`, printing and `sys.exit`
  are not modelled. The model takes `--operations` and `--no-compat` as
  parameters. The error exit of `_get_operations` is an `Err` holding the
  unknown names. The message prints them in set order, which is left out.
- `Py_INCREF_return` and `Py_INCREF_assign` are not modelled. `FORCE_NEWREF`
  is `False`, so they are never part of `OPERATIONS`.
- Python's `re` engine is not modelled in general. Only the patterns the
  operations use are modelled, each by its own matcher.
- `\w`, `\b` and `[a-zA-Z]` are modelled on ASCII only. Python's `str`
  patterns also treat non-ASCII letters and digits as word characters for
  `\w` and `\b`.
- The `DOC` strings, `PYTHONCAPI_COMPAT_URL` and the message printed by
  `main` are not modelled.
- `Upgrader.Patcher.constructor`, `Create`, `AddPythoncapiCompat`,
  `OperationPatch`, `PatchContent`, `Patch`, `PatchFile`: they change the
  patcher's state, so their contracts use `old`. They are stated against
  the functions `AddCompat`, `OpPatch` and `PatchRun`, whose lemmas above
  carry the properties.
- `PatternCompleteness.GetMemberComplete`, `ArrowMemberEndComplete`,
  `SetMemberComplete`: they require the member name to be non-empty and not
  to start with a space. Every member the operations use is an identifier.
- `PatternCompleteness.GetMemberComplete`, `SetMemberComplete`,
  `CallAssignComplete`: they state that the rule matches at the position,
  not which match it takes when several texts of the shape start there. The
  choice follows the backtracking order of `Patterns` and is described by
  the soundness lemmas of `PatternLaws`.

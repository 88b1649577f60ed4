# Column permissions of a data view

This project models the column-permission editor of Datart's view page.
Each role can be limited to a subset of the view model's columns. The
editing session holds a list of permission records. A role without a
record sees every column. A role with a record sees only the columns the
record lists.

When the checked columns in a role's tree change, the editor computes the
next record list in one of three ways:

- no record for the role yet: a new role record is appended;
- a record exists and the checked columns are not the full set: the first
  such record takes the new columns in place;
- a record exists and every column is checked: that record is removed.

"Every column is checked" is decided the way the code decides it. Both
key lists are sorted in the default string order of `sort()`, joined with
commas, and the two strings are compared. The replace branch stores the
sorted keys, because `sort()` sorts the checked array in place. The append
branch never sorts, so it stores the keys in the order the tree reported.

The model also covers the keys shown as checked for a role, the label on
a role's button (all, none or partial), and the role search predicate.

Files:

- `text.dfy`, module `Text`: the default string order, an insertion sort
  proved sorted and a permutation, `join(',')`, and `includes`.
- `column_permissions.dfy`, module `ColumnPermissions`: the records, the
  update `Toggle`, `CheckedKeys`, `LabelOf`, `Filter`, and the lemmas about
  them.

The code appends a new record whatever the checked columns are, even the
full set; `ToggleAppends` has no precondition on them.

## Model

| member | source | states |
|---|---|---|
| `Text.LexLeTotal` | frontend/src/app/pages/MainPage/pages/ViewPage/Main/Properties/ColumnPermissions.tsx:76 | any two strings are comparable in the sort order |
| `Text.LexLeAntisymmetric` | frontend/src/app/pages/MainPage/pages/ViewPage/Main/Properties/ColumnPermissions.tsx:76 | strings that are each at most the other are equal |
| `Text.LexLeTransitive` | frontend/src/app/pages/MainPage/pages/ViewPage/Main/Properties/ColumnPermissions.tsx:76 | the sort order is transitive |
| `Text.LexLeReflexive` | frontend/src/app/pages/MainPage/pages/ViewPage/Main/Properties/ColumnPermissions.tsx:76 | every string is at most itself |
| `Text.Sort` | frontend/src/app/pages/MainPage/pages/ViewPage/Main/Properties/ColumnPermissions.tsx:76 | `sort()` returns a sorted permutation of its input, of the same length |
| `Text.SortedUnique` | frontend/src/app/pages/MainPage/pages/ViewPage/Main/Properties/ColumnPermissions.tsx:76 | two sorted lists with the same elements are equal, so sorting has exactly one result |
| `Text.SortDeterminedByElements` | frontend/src/app/pages/MainPage/pages/ViewPage/Main/Properties/ColumnPermissions.tsx:76 | two lists sort to the same list if and only if they hold the same elements the same number of times |
| `Text.JoinShape` | frontend/src/app/pages/MainPage/pages/ViewPage/Main/Properties/ColumnPermissions.tsx:76 | `join(',')` starts with the first key, puts a comma right after it when more keys follow, and is empty only for `[]` or `[""]` |
| `Text.JoinInjective` | frontend/src/app/pages/MainPage/pages/ViewPage/Main/Properties/ColumnPermissions.tsx:76 | on non-empty, comma-free keys, equal joined strings come only from equal lists |
| `Text.SortedJoinEqualIff` | frontend/src/app/pages/MainPage/pages/ViewPage/Main/Properties/ColumnPermissions.tsx:76 | on non-empty, comma-free keys, the sorted joined strings are equal if and only if the lists hold the same keys the same number of times |
| `Text.JoinLength` | frontend/src/app/pages/MainPage/pages/ViewPage/Main/Properties/ColumnPermissions.tsx:76 | the joined string of a non-empty list is as long as its keys plus one comma between each two |
| `Text.MeasureOfSubset` | frontend/src/app/pages/MainPage/pages/ViewPage/Main/Properties/ColumnPermissions.tsx:76 | keys drawn from a list measure at most that list, and strictly less unless they are all of it |
| `Text.SubsetSortedJoinEqualIff` | frontend/src/app/pages/MainPage/pages/ViewPage/Main/Properties/ColumnPermissions.tsx:76 | for keys drawn from a list, the sorted joined strings are equal if and only if the keys are all of the list, or the list is `[""]` and no key is drawn |
| `Text.Includes` | frontend/src/app/pages/MainPage/pages/ViewPage/Main/Properties/ColumnPermissions.tsx:65 | `includes` is true if and only if the keyword occurs at some position of the name |
| `ColumnPermissions.FindIndex` | frontend/src/app/pages/MainPage/pages/ViewPage/Main/Properties/ColumnPermissions.tsx:70-72 | `findIndex` gives the first record of the role, or -1 when no record is the role's |
| `ColumnPermissions.WithoutIndexIsSplice` | frontend/src/app/pages/MainPage/pages/ViewPage/Main/Properties/ColumnPermissions.tsx:93-95 | filtering out index `i` is the list with position `i` cut out |
| `ColumnPermissions.ReplaceAt` | frontend/src/app/pages/MainPage/pages/ViewPage/Main/Properties/ColumnPermissions.tsx:80-87 | the list rebuilt around index `i` has the same length, the new record at `i` and the old record at every other position |
| `ColumnPermissions.ToggleAppends` | frontend/src/app/pages/MainPage/pages/ViewPage/Main/Properties/ColumnPermissions.tsx:99-110 | without a record for the role, the old list is kept and one role record with the fresh id, the view id and the checked keys as given is appended, even when every column is checked |
| `ColumnPermissions.ToggleReplaces` | frontend/src/app/pages/MainPage/pages/ViewPage/Main/Properties/ColumnPermissions.tsx:74-89 | with a record and not every column checked, the length is kept, the first record of the role keeps id, view, subject and type and takes the checked keys sorted, and every other position is unchanged |
| `ColumnPermissions.ToggleDeletes` | frontend/src/app/pages/MainPage/pages/ViewPage/Main/Properties/ColumnPermissions.tsx:90-97 | with a record and every column checked, the first record of the role is cut out, the list shrinks by one and the rest keep their order |
| `ColumnPermissions.OtherSubjectsAtRole` | frontend/src/app/pages/MainPage/pages/ViewPage/Main/Properties/ColumnPermissions.tsx:81-95 | replacing or cutting out a record of the role leaves the other subjects' records in place |
| `ColumnPermissions.ToggleKeepsOtherSubjects` | frontend/src/app/pages/MainPage/pages/ViewPage/Main/Properties/ColumnPermissions.tsx:70-110 | the records of every other subject are the same, in the same order, before and after an update |
| `ColumnPermissions.ToggleKeepsAtMostOnePerSubject` | frontend/src/app/pages/MainPage/pages/ViewPage/Main/Properties/ColumnPermissions.tsx:70-110 | if no subject has two records before an update, none has two after it |
| `ColumnPermissions.CheckedKeys` | frontend/src/app/pages/MainPage/pages/ViewPage/Main/Properties/ColumnPermissions.tsx:124-129 | the keys shown checked are the first record's columns, or all model keys in their given order when the role has no record |
| `ColumnPermissions.LabelMeaning` | frontend/src/app/pages/MainPage/pages/ViewPage/Main/Properties/ColumnPermissions.tsx:156-160 | with one record per subject, the label is all if and only if there is no record, none if and only if the record lists no column, partial if and only if it lists some |
| `ColumnPermissions.ToggleThenShow` | frontend/src/app/pages/MainPage/pages/ViewPage/Main/Properties/ColumnPermissions.tsx:68-129 | after an update the role shows every model key if its record was removed, the keys as given if one was created, the sorted keys if one was replaced; a record remains unless one existed and every column was checked |
| `ColumnPermissions.AllColumnsCheckedIsSetEquality` | frontend/src/app/pages/MainPage/pages/ViewPage/Main/Properties/ColumnPermissions.tsx:75-77 | for distinct, non-empty, comma-free column names, the string comparison holds if and only if the checked keys are exactly the model's columns |
| `ColumnPermissions.AllColumnsCheckedOnTreeInput` | frontend/src/app/pages/MainPage/pages/ViewPage/Main/Properties/ColumnPermissions.tsx:75-77 | when the checked keys are drawn from the model's columns, as the tree reports them, the string comparison holds if and only if every column is checked, or the model's only column is named "" and none is checked |
| `ColumnPermissions.EmptyColumnUncheckedShowsAll` | frontend/src/app/pages/MainPage/pages/ViewPage/Main/Properties/ColumnPermissions.tsx:75-97 | unchecking the single column "" removes the role's record, so the role's button reads all |
| `ColumnPermissions.StringComparisonIsNotSetEquality` | frontend/src/app/pages/MainPage/pages/ViewPage/Main/Properties/ColumnPermissions.tsx:76 | with columns `a` and `b`, the key `a,b`, which is no column, passes the comparison and deletes the role's record |
| `ColumnPermissions.FilterMembership` | frontend/src/app/pages/MainPage/pages/ViewPage/Main/Properties/ColumnPermissions.tsx:63-66 | a role is shown if and only if it is listed and its name includes the keywords |
| `ColumnPermissions.FilterConcat` | frontend/src/app/pages/MainPage/pages/ViewPage/Main/Properties/ColumnPermissions.tsx:63-66 | the search keeps the roles' order: filtering two lists joined is filtering each and joining the results |
| `ColumnPermissions.FilterEmptyKeywords` | frontend/src/app/pages/MainPage/pages/ViewPage/Main/Properties/ColumnPermissions.tsx:65 | an empty search keeps every role in order |
| `ColumnPermissions.ExampleAllChecked` | frontend/src/app/pages/MainPage/pages/ViewPage/Main/Properties/ColumnPermissions.tsx:76 | columns `a, b, c` checked as `c, a, b` count as all checked |
| `ColumnPermissions.ExampleSession` | frontend/src/app/pages/MainPage/pages/ViewPage/Main/Properties/ColumnPermissions.tsx:68-114 | with columns a, b, c, checking only `a` for role r1 creates one partial record, and checking all three again removes it |

## Left out

- `ChartHeaderPanel.tsx` as a whole: it only lays out buttons and a dialog flag, with no rule to state.
- Dispatching to the store, selectors and the view slice: `Toggle` returns the next record list instead of dispatching it.
- `uuidv4()`: the id of a new record is the parameter `freshId`.
- The debounce timer of `useDebouncedSearch`: that hook is not part of this model. `Filter` assumes it keeps, in order, the roles the predicate accepts. Any trimming of the keywords would happen there and is not modelled.
- Rendering, the popup, the tree widget, styling, translations, the loading indicator and the disabled state of archived views: display only.
- `Text.LexLe`: compares characters as Unicode code points, while `sort()` compares UTF-16 code units. The two orders agree on the Basic Multilingual Plane and can differ only for characters beyond it.
- `ColumnPermissions.Toggle`: `sort()` also reorders the caller's checked array in place. Only its effect on the stored record is modelled.

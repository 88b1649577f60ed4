/**
 * The column-permission editor of a data view: the list of permission
 * records kept in the editing session, the update applied when a role's
 * checked columns change, the keys and label shown for a role, and the
 * role search.
 *
 * A role with no record may see every column; a record restricts the role
 * to the columns it lists.
 */
module ColumnPermissions {
  import opened Text

  /** Kind of principal a record applies to; the editor only creates role records. */
  datatype SubjectType = RoleSubject | OtherSubject(tag: string)

  /** One permission record of the view being edited. */
  datatype Record = Record(
    id: string,
    viewId: string,
    subjectId: string,
    subjectType: SubjectType,
    columnPermission: seq<string>)

  /** A role as listed in the editor. */
  datatype Role = Role(id: string, name: string)

  /** The three labels shown on a role's button. */
  datatype Label = AllColumns | NoColumns | PartialColumns

  /** Some record belongs to the role. */
  predicate HasRecord(records: seq<Record>, roleId: string)
  {
    exists j :: 0 <= j < |records| && records[j].subjectId == roleId
  }

  /** The session holds at most one record per subject. */
  predicate AtMostOnePerSubject(records: seq<Record>)
  {
    forall i, j :: 0 <= i < j < |records| ==> records[i].subjectId != records[j].subjectId
  }

  /** `records.findIndex(({subjectId}) => subjectId === roleId)`: the first match, or -1. */
  function FindIndex(records: seq<Record>, roleId: string): (index: int)
    ensures -1 <= index < |records|
    ensures index >= 0 ==> records[index].subjectId == roleId
    ensures forall j :: 0 <= j < |records| && (index < 0 || j < index) ==> records[j].subjectId != roleId
  {
    if |records| == 0 then -1
    else if records[0].subjectId == roleId then 0
    else
      var k := FindIndex(records[1..], roleId);
      if k < 0 then -1 else k + 1
  }

  /** The record list without the element at `index`: `records.filter((_, i) => index !== i)`. */
  function WithoutIndex(records: seq<Record>, index: int): (r: seq<Record>)
    decreases |records|
  {
    if |records| == 0 then []
    else (if index == 0 then [] else [records[0]]) + WithoutIndex(records[1..], index - 1)
  }

  lemma {:induction false} WithoutIndexIsSplice(records: seq<Record>, index: int)
    requires 0 <= index < |records|
    ensures WithoutIndex(records, index) == records[..index] + records[index + 1..]
  {
    if index > 0 {
      WithoutIndexIsSplice(records[1..], index - 1);
      assert records[1..][..index - 1] == records[1..index];
      assert records[1..][index..] == records[index + 1..];
      assert [records[0]] + records[1..index] == records[..index];
    } else {
      WithoutIndexOutOfRange(records[1..], -1);
    }
  }

  lemma {:induction false} WithoutIndexOutOfRange(records: seq<Record>, index: int)
    requires index < 0
    ensures WithoutIndex(records, index) == records
  {
    if |records| > 0 {
      WithoutIndexOutOfRange(records[1..], index - 1);
      assert records == [records[0]] + records[1..];
    }
  }

  /** `[...records.slice(0, index), x, ...records.slice(index + 1)]`. */
  function ReplaceAt(records: seq<Record>, index: nat, x: Record): (r: seq<Record>)
    requires index < |records|
    ensures |r| == |records| && r[index] == x
    ensures forall j :: 0 <= j < |r| && j != index ==> r[j] == records[j]
  {
    records[..index] + [x] + records[index + 1..]
  }

  /** The columns of the role match the full column set, in the editor's own terms. */
  predicate AllColumnsChecked(modelKeys: seq<string>, checked: seq<string>)
  {
    Join(Sort(modelKeys)) == Join(Sort(checked))
  }

  /**
   * The record list after the role's tree reports `checked` as its checked
   * columns. `modelKeys` are the view model's column names, `freshId` the
   * id a new record receives and `viewId` the view being edited.
   */
  function Toggle(records: seq<Record>, roleId: string, modelKeys: seq<string>,
                  checked: seq<string>, freshId: string, viewId: string): seq<Record>
  {
    var index := FindIndex(records, roleId);
    if index >= 0 then
      var sortedChecked := Sort(checked);
      if Join(Sort(modelKeys)) != Join(sortedChecked) then
        ReplaceAt(records, index, records[index].(columnPermission := sortedChecked))
      else
        WithoutIndexIsSplice(records, index);
        WithoutIndex(records, index)
    else
      records + [Record(freshId, viewId, roleId, RoleSubject, checked)]
  }

  /** Without a record for the role, one new role record holding the checked keys as given is appended. */
  lemma {:induction false} ToggleAppends(records: seq<Record>, roleId: string, modelKeys: seq<string>,
                      checked: seq<string>, freshId: string, viewId: string)
    requires !HasRecord(records, roleId)
    ensures var r := Toggle(records, roleId, modelKeys, checked, freshId, viewId);
      |r| == |records| + 1 && r[..|records|] == records &&
      r[|records|] == Record(freshId, viewId, roleId, RoleSubject, checked)
  {
  }

  /**
   * With a record for the role and a checked set that is not the full one,
   * that first record keeps its identity and takes the sorted checked keys;
   * every other position is unchanged.
   */
  lemma {:induction false} ToggleReplaces(records: seq<Record>, roleId: string, modelKeys: seq<string>,
                       checked: seq<string>, freshId: string, viewId: string)
    requires HasRecord(records, roleId)
    requires !AllColumnsChecked(modelKeys, checked)
    ensures var r := Toggle(records, roleId, modelKeys, checked, freshId, viewId);
      var i := FindIndex(records, roleId);
      0 <= i && |r| == |records| &&
      r[i] == records[i].(columnPermission := Sort(checked)) &&
      Sorted(r[i].columnPermission) && multiset(r[i].columnPermission) == multiset(checked) &&
      forall j :: 0 <= j < |r| && j != i ==> r[j] == records[j]
  {
  }

  /**
   * With a record for the role and the full checked set, that first record
   * is removed and the others keep their order.
   */
  lemma {:induction false} ToggleDeletes(records: seq<Record>, roleId: string, modelKeys: seq<string>,
                      checked: seq<string>, freshId: string, viewId: string)
    requires HasRecord(records, roleId)
    requires AllColumnsChecked(modelKeys, checked)
    ensures var r := Toggle(records, roleId, modelKeys, checked, freshId, viewId);
      var i := FindIndex(records, roleId);
      0 <= i && |r| == |records| - 1 && r == records[..i] + records[i + 1..]
  {
    var i := FindIndex(records, roleId);
    assert i >= 0;
    WithoutIndexIsSplice(records, i);
  }

  /** The records of every other subject, in order. */
  function OtherSubjects(records: seq<Record>, roleId: string): (r: seq<Record>)
  {
    if |records| == 0 then []
    else (if records[0].subjectId == roleId then [] else [records[0]]) + OtherSubjects(records[1..], roleId)
  }

  lemma OtherSubjectsCons(x: Record, rest: seq<Record>, roleId: string)
    ensures OtherSubjects([x] + rest, roleId)
         == (if x.subjectId == roleId then [] else [x]) + OtherSubjects(rest, roleId)
  {
  }

  lemma {:induction false} OtherSubjectsAppend(a: seq<Record>, b: seq<Record>, roleId: string)
    ensures OtherSubjects(a + b, roleId) == OtherSubjects(a, roleId) + OtherSubjects(b, roleId)
  {
    if |a| == 0 {
      assert a + b == b;
    } else {
      OtherSubjectsAppend(a[1..], b, roleId);
      assert a == [a[0]] + a[1..];
      assert a + b == [a[0]] + (a[1..] + b);
      OtherSubjectsCons(a[0], a[1..] + b, roleId);
      OtherSubjectsCons(a[0], a[1..], roleId);
    }
  }

  /** Replacing or dropping a record of the role leaves the other subjects' records as they were. */
  lemma {:induction false} OtherSubjectsAtRole(records: seq<Record>, i: nat, x: Record, roleId: string)
    requires i < |records| && records[i].subjectId == roleId && x.subjectId == roleId
    ensures OtherSubjects(records[..i] + [x] + records[i + 1..], roleId) == OtherSubjects(records, roleId)
    ensures OtherSubjects(records[..i] + records[i + 1..], roleId) == OtherSubjects(records, roleId)
  {
    var before, after := records[..i], records[i + 1..];
    OtherSubjectsAppend(before + [x], after, roleId);
    OtherSubjectsAppend(before, [x], roleId);
    OtherSubjectsAppend(before + [records[i]], after, roleId);
    OtherSubjectsAppend(before, [records[i]], roleId);
    OtherSubjectsAppend(before, after, roleId);
    assert OtherSubjects([x], roleId) == [] && OtherSubjects([records[i]], roleId) == [];
    assert records == before + [records[i]] + after;
  }

  /** Records of other subjects are never touched: neither changed, dropped, added nor reordered. */
  lemma {:induction false} ToggleKeepsOtherSubjects(records: seq<Record>, roleId: string, modelKeys: seq<string>,
                                 checked: seq<string>, freshId: string, viewId: string)
    ensures OtherSubjects(Toggle(records, roleId, modelKeys, checked, freshId, viewId), roleId)
         == OtherSubjects(records, roleId)
  {
    var r := Toggle(records, roleId, modelKeys, checked, freshId, viewId);
    var i := FindIndex(records, roleId);
    if i < 0 {
      ToggleAppends(records, roleId, modelKeys, checked, freshId, viewId);
      var added := r[|records|];
      assert r == records + [added];
      OtherSubjectsAppend(records, [added], roleId);
      assert OtherSubjects([added], roleId) == [];
    } else if AllColumnsChecked(modelKeys, checked) {
      ToggleDeletes(records, roleId, modelKeys, checked, freshId, viewId);
      OtherSubjectsAtRole(records, i, records[i], roleId);
    } else {
      ToggleReplaces(records, roleId, modelKeys, checked, freshId, viewId);
      assert r == records[..i] + [r[i]] + records[i + 1..];
      OtherSubjectsAtRole(records, i, r[i], roleId);
    }
  }

  lemma AtMostOneAfterAppend(records: seq<Record>, x: Record)
    requires AtMostOnePerSubject(records)
    requires forall j :: 0 <= j < |records| ==> records[j].subjectId != x.subjectId
    ensures AtMostOnePerSubject(records + [x])
  {
  }

  lemma AtMostOneAfterRemove(records: seq<Record>, i: nat)
    requires AtMostOnePerSubject(records) && i < |records|
    ensures AtMostOnePerSubject(records[..i] + records[i + 1..])
  {
  }

  /** At most one record per subject stays true across an update. */
  lemma {:induction false} ToggleKeepsAtMostOnePerSubject(records: seq<Record>, roleId: string, modelKeys: seq<string>,
                                       checked: seq<string>, freshId: string, viewId: string)
    requires AtMostOnePerSubject(records)
    ensures AtMostOnePerSubject(Toggle(records, roleId, modelKeys, checked, freshId, viewId))
  {
    var r := Toggle(records, roleId, modelKeys, checked, freshId, viewId);
    var i := FindIndex(records, roleId);
    if i < 0 {
      ToggleAppends(records, roleId, modelKeys, checked, freshId, viewId);
      assert r == records + [r[|records|]];
      AtMostOneAfterAppend(records, r[|records|]);
    } else if AllColumnsChecked(modelKeys, checked) {
      ToggleDeletes(records, roleId, modelKeys, checked, freshId, viewId);
      AtMostOneAfterRemove(records, i);
    } else {
      ToggleReplaces(records, roleId, modelKeys, checked, freshId, viewId);
      assert forall k :: 0 <= k < |r| ==> r[k].subjectId == records[k].subjectId;
    }
  }

  /** The keys checked in a role's tree: its record's columns, or every model column. */
  function CheckedKeys(records: seq<Record>, roleId: string, modelKeys: seq<string>): (keys: seq<string>)
    ensures !HasRecord(records, roleId) ==> keys == modelKeys
    ensures forall j ::
      (0 <= j < |records| && records[j].subjectId == roleId &&
       forall k :: 0 <= k < j ==> records[k].subjectId != roleId) ==>
      keys == records[j].columnPermission
  {
    var index := FindIndex(records, roleId);
    if index >= 0 then records[index].columnPermission else modelKeys
  }

  /** The label on a role's button: all without a record, else partial or none by the checked count. */
  function LabelOf(records: seq<Record>, roleId: string, modelKeys: seq<string>): (l: Label)
  {
    if FindIndex(records, roleId) >= 0 then
      if |CheckedKeys(records, roleId, modelKeys)| > 0 then PartialColumns else NoColumns
    else AllColumns
  }

  /** The label tells apart full access, no access and partial access, each in both directions. */
  lemma {:induction false} LabelMeaning(records: seq<Record>, roleId: string, modelKeys: seq<string>)
    requires AtMostOnePerSubject(records)
    ensures LabelOf(records, roleId, modelKeys) == AllColumns <==> !HasRecord(records, roleId)
    ensures LabelOf(records, roleId, modelKeys) == NoColumns <==>
      exists j :: 0 <= j < |records| && records[j].subjectId == roleId && records[j].columnPermission == []
    ensures LabelOf(records, roleId, modelKeys) == PartialColumns <==>
      exists j :: 0 <= j < |records| && records[j].subjectId == roleId && records[j].columnPermission != []
  {
  }

  /**
   * What the editor shows for the role after an update: every column when the
   * record was removed, the checked keys as given when it was created, and the
   * sorted checked keys when it was replaced.
   */
  lemma {:induction false} ToggleThenShow(records: seq<Record>, roleId: string, modelKeys: seq<string>,
                       checked: seq<string>, freshId: string, viewId: string)
    requires AtMostOnePerSubject(records)
    ensures var r := Toggle(records, roleId, modelKeys, checked, freshId, viewId);
      CheckedKeys(r, roleId, modelKeys) ==
        if !HasRecord(records, roleId) then checked
        else if AllColumnsChecked(modelKeys, checked) then modelKeys
        else Sort(checked)
    ensures var r := Toggle(records, roleId, modelKeys, checked, freshId, viewId);
      HasRecord(r, roleId) <==> !HasRecord(records, roleId) || !AllColumnsChecked(modelKeys, checked)
  {
    var r := Toggle(records, roleId, modelKeys, checked, freshId, viewId);
    var i := FindIndex(records, roleId);
    if i < 0 {
      assert r[|records|].subjectId == roleId;
    } else if AllColumnsChecked(modelKeys, checked) {
      WithoutIndexIsSplice(records, i);
      forall j | 0 <= j < |r| ensures r[j].subjectId != roleId {
        var j' := if j < i then j else j + 1;
        assert r[j] == records[j'] && j' != i;
      }
    } else {
      assert r[i].subjectId == roleId;
    }
  }

  /**
   * When the model's columns and the checked columns are plain names (non-empty,
   * no comma) without repeats, the editor's string comparison is exactly set
   * equality: the record is deleted precisely when every column is checked.
   */
  lemma {:induction false} AllColumnsCheckedIsSetEquality(modelKeys: seq<string>, checked: seq<string>)
    requires PlainKeys(modelKeys) && PlainKeys(checked)
    requires Distinct(modelKeys) && Distinct(checked)
    ensures AllColumnsChecked(modelKeys, checked) <==> forall k :: k in modelKeys <==> k in checked
  {
    SortedJoinEqualIff(modelKeys, checked);
    DistinctSameSet(modelKeys, checked);
  }

  /**
   * The tree reports only keys of the model's columns, so `checked` is drawn
   * from `modelKeys`. On such input the comparison is "every column checked",
   * with one exception: a model whose only column is named "" and a tree that
   * reports nothing compare equal, so the record is deleted rather than
   * restricted to no columns.
   */
  lemma {:induction false} AllColumnsCheckedOnTreeInput(modelKeys: seq<string>, checked: seq<string>)
    requires multiset(checked) <= multiset(modelKeys)
    ensures AllColumnsChecked(modelKeys, checked) <==>
      multiset(checked) == multiset(modelKeys) || (checked == [] && modelKeys == [""])
  {
    SubsetSortedJoinEqualIff(modelKeys, checked);
  }

  /**
   * The exception above: unchecking the single column "" removes the role's
   * record, so the role sees every column and its button reads "all".
   */
  lemma {:induction false} EmptyColumnUncheckedShowsAll(records: seq<Record>, roleId: string,
                                                      freshId: string, viewId: string)
    requires AtMostOnePerSubject(records)
    requires HasRecord(records, roleId)
    ensures var r := Toggle(records, roleId, [""], [], freshId, viewId);
      !HasRecord(r, roleId) && LabelOf(r, roleId, [""]) == AllColumns
  {
    AllColumnsCheckedOnTreeInput([""], []);
    ToggleThenShow(records, roleId, [""], [], freshId, viewId);
  }

  /**
   * The comparison is a string test, not a set test: the key `a,b` is not a
   * column of a model with columns `a` and `b`, and the tree never reports
   * it, but it compares equal to the full set and would delete the record.
   */
  lemma {:induction false} StringComparisonIsNotSetEquality(records: seq<Record>, roleId: string, freshId: string, viewId: string)
    requires HasRecord(records, roleId)
    ensures AllColumnsChecked(["a", "b"], ["a,b"])
    ensures |Toggle(records, roleId, ["a", "b"], ["a,b"], freshId, viewId)| == |records| - 1
  {
    assert Sort(["b"]) == ["b"];
    assert LexLe("a", "b");
    assert Sort(["a", "b"]) == ["a", "b"];
    assert Join(["a", "b"]) == "a,b";
    ToggleDeletes(records, roleId, ["a", "b"], ["a,b"], freshId, viewId);
  }

  /** The role search: `name.includes(keywords)`, case-sensitive, keeping the list order. */
  function Filter(roles: seq<Role>, keywords: string): (shown: seq<Role>)
  {
    if |roles| == 0 then []
    else (if Includes(roles[0].name, keywords) then [roles[0]] else []) + Filter(roles[1..], keywords)
  }

  /** A role is shown exactly when it is listed and its name includes the keywords. */
  lemma {:induction false} FilterMembership(roles: seq<Role>, keywords: string, role: Role)
    ensures role in Filter(roles, keywords) <==> role in roles && Includes(role.name, keywords)
  {
    if |roles| > 0 {
      FilterMembership(roles[1..], keywords, role);
      assert roles == [roles[0]] + roles[1..];
    }
  }

  lemma FilterCons(role: Role, rest: seq<Role>, keywords: string)
    ensures Filter([role] + rest, keywords)
         == (if Includes(role.name, keywords) then [role] else []) + Filter(rest, keywords)
  {
  }

  /** The search keeps the list order: filtering a concatenation filters each part in turn. */
  lemma {:induction false} FilterConcat(a: seq<Role>, b: seq<Role>, keywords: string)
    ensures Filter(a + b, keywords) == Filter(a, keywords) + Filter(b, keywords)
  {
    if |a| == 0 {
      assert a + b == b;
    } else {
      FilterConcat(a[1..], b, keywords);
      assert a == [a[0]] + a[1..];
      assert a + b == [a[0]] + (a[1..] + b);
      FilterCons(a[0], a[1..] + b, keywords);
      FilterCons(a[0], a[1..], keywords);
    }
  }

  /** An empty search shows every role. */
  lemma {:induction false} FilterEmptyKeywords(roles: seq<Role>)
    ensures Filter(roles, "") == roles
  {
    if |roles| > 0 {
      assert OccursAt(roles[0].name, "", 0);
      FilterEmptyKeywords(roles[1..]);
      assert roles == [roles[0]] + roles[1..];
    }
  }

  /** The full column set checked in another order still counts as all checked. */
  lemma {:induction false} ExampleAllChecked()
    ensures AllColumnsChecked(["a", "b", "c"], ["c", "a", "b"])
  {
  }

  /**
   * A session: with columns a, b, c and no records, unchecking b and c
   * for role r1 creates one record holding ["a"]; checking all three again, in
   * any order, removes it.
   */
  lemma {:induction false} ExampleSession(freshId: string, viewId: string)
    ensures var first := Toggle([], "r1", ["a", "b", "c"], ["a"], freshId, viewId);
      first == [Record(freshId, viewId, "r1", RoleSubject, ["a"])] &&
      LabelOf(first, "r1", ["a", "b", "c"]) == PartialColumns &&
      Toggle(first, "r1", ["a", "b", "c"], ["c", "a", "b"], freshId, viewId) == []
  {
    var first := Toggle([], "r1", ["a", "b", "c"], ["a"], freshId, viewId);
    ToggleAppends([], "r1", ["a", "b", "c"], ["a"], freshId, viewId);
    assert first == [Record(freshId, viewId, "r1", RoleSubject, ["a"])];
    assert first[0].subjectId == "r1";
    assert HasRecord(first, "r1");
    assert CheckedKeys(first, "r1", ["a", "b", "c"]) == ["a"];
    ExampleAllChecked();
    ToggleDeletes(first, "r1", ["a", "b", "c"], ["c", "a", "b"], freshId, viewId);
    assert first[..0] + first[1..] == [];
  }
}

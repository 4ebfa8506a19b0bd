/** State transitions of the assistant-model settings form.
    The form holds an ordered list of model rows (`llm_list`) and one
    separate auxiliary row (`auto_llm`). Every user interaction replaces the
    whole form by a new value computed from the old one; this module models
    each such replacement as a function Form -> Form and proves what it
    does to the list, to the separate row and to the number of rows that
    are flagged as the default. */
module AssisModel {

  datatype Option<T> = None | Some(value: T)

  // ---------------------------------------------------------------------
  // Rows and their fields
  // ---------------------------------------------------------------------

  /** One model configuration: an entry of `llm_list`, and also the shape
      of `auto_llm`. `modelId` is `None` where the form holds `null`. */
  datatype Row = Row(
    modelId: Option<string>,
    agentExecutorType: string,
    streaming: bool,
    knowledgeMaxContent: int,
    knowledgeSortIndex: bool,
    isDefault: bool)

  /** The names of the six fields of a row. */
  datatype Field =
    | ModelIdKey
    | AgentExecutorTypeKey
    | StreamingKey
    | KnowledgeMaxContentKey
    | KnowledgeSortIndexKey
    | DefaultKey

  /** A field name together with a value of that field's type: the
      `(field, value)` pair handed to `updateField` and `updateAutoLLMField`. */
  datatype FieldValue =
    | ModelId(id: Option<string>)
    | AgentExecutorType(executor: string)
    | Streaming(streams: bool)
    | KnowledgeMaxContent(maxContent: int)
    | KnowledgeSortIndex(sortIndex: bool)
    | Default(flag: bool)

  /** The field a `FieldValue` writes. */
  function KeyOf(v: FieldValue): Field
  {
    match v
    case ModelId(_) => ModelIdKey
    case AgentExecutorType(_) => AgentExecutorTypeKey
    case Streaming(_) => StreamingKey
    case KnowledgeMaxContent(_) => KnowledgeMaxContentKey
    case KnowledgeSortIndex(_) => KnowledgeSortIndexKey
    case Default(_) => DefaultKey
  }

  /** The value that row `r` holds in field `f`, i.e. `r[f]`. */
  function Lookup(r: Row, f: Field): (v: FieldValue)
    ensures KeyOf(v) == f
  {
    match f
    case ModelIdKey => ModelId(r.modelId)
    case AgentExecutorTypeKey => AgentExecutorType(r.agentExecutorType)
    case StreamingKey => Streaming(r.streaming)
    case KnowledgeMaxContentKey => KnowledgeMaxContent(r.knowledgeMaxContent)
    case KnowledgeSortIndexKey => KnowledgeSortIndex(r.knowledgeSortIndex)
    case DefaultKey => Default(r.isDefault)
  }

  /** `{ ...r, [field]: value }`: the row `r` with one field overwritten.
      Reading the written field gives back the written value, and every
      other field reads as before. */
  function SetField(r: Row, v: FieldValue): (r': Row)
    ensures Lookup(r', KeyOf(v)) == v
    ensures forall f :: f != KeyOf(v) ==> Lookup(r', f) == Lookup(r, f)
  {
    match v
    case ModelId(id) => r.(modelId := id)
    case AgentExecutorType(s) => r.(agentExecutorType := s)
    case Streaming(b) => r.(streaming := b)
    case KnowledgeMaxContent(n) => r.(knowledgeMaxContent := n)
    case KnowledgeSortIndex(b) => r.(knowledgeSortIndex := b)
    case Default(b) => r.(isDefault := b)
  }

  /** A row is determined by what its six fields read. */
  lemma RowsAgreeOnFields(a: Row, b: Row)
    requires forall f :: Lookup(a, f) == Lookup(b, f)
    ensures a == b
  {
    assert Lookup(a, ModelIdKey) == Lookup(b, ModelIdKey);
    assert Lookup(a, AgentExecutorTypeKey) == Lookup(b, AgentExecutorTypeKey);
    assert Lookup(a, StreamingKey) == Lookup(b, StreamingKey);
    assert Lookup(a, KnowledgeMaxContentKey) == Lookup(b, KnowledgeMaxContentKey);
    assert Lookup(a, KnowledgeSortIndexKey) == Lookup(b, KnowledgeSortIndexKey);
    assert Lookup(a, DefaultKey) == Lookup(b, DefaultKey);
  }

  /** The two ensures of `SetField` pin the written row down completely:
      any row that reads the written value in the written field and agrees
      with `r` on every other field is `SetField(r, v)`. */
  lemma SetFieldIsDetermined(r: Row, v: FieldValue, r': Row)
    requires Lookup(r', KeyOf(v)) == v
    requires forall f :: f != KeyOf(v) ==> Lookup(r', f) == Lookup(r, f)
    ensures r' == SetField(r, v)
  {
    var w := SetField(r, v);
    forall f ensures Lookup(r', f) == Lookup(w, f) {
    }
    RowsAgreeOnFields(r', w);
  }

  /** Writing a field the value it already holds leaves the row as it was. */
  lemma SetFieldToCurrentValue(r: Row, f: Field)
    ensures SetField(r, Lookup(r, f)) == r
  {
  }

  /** Writing the same field twice keeps only the second write. */
  lemma SetFieldLastWriteWins(r: Row, v: FieldValue, w: FieldValue)
    requires KeyOf(v) == KeyOf(w)
    ensures SetField(SetField(r, v), w) == SetField(r, w)
  {
  }

  // ---------------------------------------------------------------------
  // The "1" / "0" encoding of the boolean selectors of a row
  // ---------------------------------------------------------------------

  /** The selector value shown for a boolean field: `b ? "1" : "0"`. */
  function EncodeFlag(b: bool): (s: string)
    ensures s == "1" || s == "0"
    ensures DecodeFlag(s) == b
  {
    if b then "1" else "0"
  }

  /** The boolean reported when a selector changes: `val === "1"`. */
  function DecodeFlag(s: string): bool
  {
    s == "1"
  }

  /** Showing a flag and reading the selector back gives the flag. */
  lemma FlagRoundTrip(b: bool)
    ensures DecodeFlag(EncodeFlag(b)) == b
  {
  }

  /** Exactly the two selector values survive a read followed by a show;
      anything else the selector might report reads as `false`. */
  lemma FlagEncodingImage(s: string)
    ensures EncodeFlag(DecodeFlag(s)) == s <==> s == "1" || s == "0"
    ensures s != "1" ==> !DecodeFlag(s)
  {
  }

  // ---------------------------------------------------------------------
  // Counting default rows
  // ---------------------------------------------------------------------

  /** The number of rows whose `default` flag is set. */
  function DefaultCount(rows: seq<Row>): (n: nat)
    ensures n <= |rows|
  {
    if rows == [] then 0
    else (if rows[0].isDefault then 1 else 0) + DefaultCount(rows[1..])
  }

  /** The list invariant the form aims for: exactly one default row. */
  predicate ExactlyOneDefault(rows: seq<Row>)
  {
    DefaultCount(rows) == 1
  }

  lemma {:induction false} DefaultCountAppend(a: seq<Row>, b: seq<Row>)
    ensures DefaultCount(a + b) == DefaultCount(a) + DefaultCount(b)
  {
    if a == [] {
      assert a + b == b;
    } else {
      assert (a + b)[1..] == a[1..] + b;
      DefaultCountAppend(a[1..], b);
    }
  }

  /** No default row is counted exactly when no row is flagged default. */
  lemma {:induction false} DefaultCountZero(rows: seq<Row>)
    ensures DefaultCount(rows) == 0 <==> forall j :: 0 <= j < |rows| ==> !rows[j].isDefault
  {
    if rows != [] {
      DefaultCountZero(rows[1..]);
      assert forall j :: 0 <= j < |rows[1..]| ==> rows[1..][j] == rows[j + 1];
    }
  }

  /** If row `k` is the only row flagged default, exactly one row is counted. */
  lemma {:induction false} DefaultCountOnlyAt(rows: seq<Row>, k: int)
    requires 0 <= k < |rows|
    requires forall j :: 0 <= j < |rows| ==> (rows[j].isDefault <==> j == k)
    ensures ExactlyOneDefault(rows)
  {
    if k == 0 {
      forall j | 0 <= j < |rows[1..]| ensures !rows[1..][j].isDefault {
        assert rows[1..][j] == rows[j + 1];
      }
      DefaultCountZero(rows[1..]);
    } else {
      forall j | 0 <= j < |rows[1..]| ensures rows[1..][j].isDefault <==> j == k - 1 {
        assert rows[1..][j] == rows[j + 1];
      }
      DefaultCountOnlyAt(rows[1..], k - 1);
    }
  }

  /** Exactly one default row means some single position holds it. */
  lemma {:induction false} ExactlyOneDefaultAt(rows: seq<Row>) returns (k: int)
    requires ExactlyOneDefault(rows)
    ensures 0 <= k < |rows|
    ensures forall j :: 0 <= j < |rows| ==> (rows[j].isDefault <==> j == k)
  {
    assert rows != [];
    if rows[0].isDefault {
      k := 0;
      DefaultCountZero(rows[1..]);
      forall j | 1 <= j < |rows| ensures !rows[j].isDefault {
        assert rows[j] == rows[1..][j - 1];
      }
    } else {
      var k' := ExactlyOneDefaultAt(rows[1..]);
      k := k' + 1;
      forall j | 1 <= j < |rows| ensures rows[j].isDefault <==> j == k {
        assert rows[j] == rows[1..][j - 1];
      }
    }
  }

  /** Two lists whose rows carry the same `default` flags, position by
      position, have the same number of default rows. */
  lemma {:induction false} DefaultCountSameFlags(a: seq<Row>, b: seq<Row>)
    requires |a| == |b|
    requires forall j :: 0 <= j < |a| ==> a[j].isDefault == b[j].isDefault
    ensures DefaultCount(a) == DefaultCount(b)
  {
    if a != [] {
      forall j | 0 <= j < |a[1..]| ensures a[1..][j].isDefault == b[1..][j].isDefault {
        assert a[1..][j] == a[j + 1] && b[1..][j] == b[j + 1];
      }
      DefaultCountSameFlags(a[1..], b[1..]);
    }
  }

  // ---------------------------------------------------------------------
  // The form and its initial value
  // ---------------------------------------------------------------------

  datatype Form = Form(llmList: seq<Row>, autoLlm: Row)

  /** The single row of the initial list: unset model, flagged default. */
  const INITIAL_ROW: Row := Row(None, "", false, 0, false, true)

  /** The baseline `auto_llm`, used initially and when a load omits it. */
  const DEFAULT_AUTO_LLM: Row := Row(None, "", false, 0, false, false)

  /** The row `addNewRow` appends. */
  const NEW_ROW: Row := Row(None, "", false, 0, false, false)

  /** `defaultValue`, the form before any load or edit: one row, and it is
      the default. */
  function InitialForm(): (form: Form)
    ensures |form.llmList| == 1 && form.llmList[0].isDefault
    ensures ExactlyOneDefault(form.llmList)
    ensures form.autoLlm == DEFAULT_AUTO_LLM && !form.autoLlm.isDefault
  {
    Form([INITIAL_ROW], DEFAULT_AUTO_LLM)
  }

  /** What the configuration endpoint returns; `auto_llm` may be absent. */
  datatype Response = Response(llmList: seq<Row>, autoLlm: Option<Row>)

  /** The form after a load: the response's list verbatim, and its
      `auto_llm`, or the baseline one when the response has none. */
  function Load(resp: Response): (form: Form)
    ensures form.llmList == resp.llmList
    ensures resp.autoLlm.Some? ==> form.autoLlm == resp.autoLlm.value
    ensures resp.autoLlm.None? ==> form.autoLlm == DEFAULT_AUTO_LLM && !form.autoLlm.isDefault
  {
    Form(resp.llmList, if resp.autoLlm.Some? then resp.autoLlm.value else DEFAULT_AUTO_LLM)
  }

  // ---------------------------------------------------------------------
  // updateField
  // ---------------------------------------------------------------------

  /** The callback `updateField` maps over the list: row `i` gets the new
      value; when `default` is being set to true every other row has its
      `default` cleared; any other row is kept. */
  function UpdateRow(item: Row, i: int, index: int, v: FieldValue): Row
  {
    if i == index then SetField(item, v)
    else if v == Default(true) then item.(isDefault := false)
    else item
  }

  /** `updateField(index, field, value)`. */
  function UpdateField(form: Form, index: int, v: FieldValue): (form': Form)
    ensures |form'.llmList| == |form.llmList|
    ensures form'.autoLlm == form.autoLlm
  {
    var rows := form.llmList;
    form.(llmList := seq(|rows|, i requires 0 <= i < |rows| => UpdateRow(rows[i], i, index, v)))
  }

  /** With a valid index, row `index` afterwards differs from its old self
      in exactly the written field, which now holds the written value. */
  lemma UpdateFieldWritesOneField(form: Form, index: int, v: FieldValue)
    requires 0 <= index < |form.llmList|
    ensures var row, row' := form.llmList[index], UpdateField(form, index, v).llmList[index];
      Lookup(row', KeyOf(v)) == v &&
      (forall f :: f != KeyOf(v) ==> Lookup(row', f) == Lookup(row, f))
  {
  }

  /** Selecting row `index` as the default leaves exactly one default row,
      namely row `index`; every other row only loses its `default` flag. */
  lemma UpdateFieldSelectsUniqueDefault(form: Form, index: int)
    requires 0 <= index < |form.llmList|
    ensures var rows' := UpdateField(form, index, Default(true)).llmList;
      ExactlyOneDefault(rows') && rows'[index].isDefault &&
      (forall j :: 0 <= j < |rows'| && j != index ==>
        !rows'[j].isDefault && rows'[j] == form.llmList[j].(isDefault := false))
  {
    var rows' := UpdateField(form, index, Default(true)).llmList;
    DefaultCountOnlyAt(rows', index);
  }

  /** Any edit other than "set default to true" leaves every other row as
      it was; with an index outside the list it changes nothing at all. */
  lemma UpdateFieldKeepsOtherRows(form: Form, index: int, v: FieldValue)
    requires v != Default(true)
    ensures var rows, rows' := form.llmList, UpdateField(form, index, v).llmList;
      forall j :: 0 <= j < |rows| && j != index ==> rows'[j] == rows[j]
    ensures !(0 <= index < |form.llmList|) ==> UpdateField(form, index, v) == form
  {
  }

  /** "Set default to true" with an index outside the list clears the
      `default` flag of every row, leaving no default row. */
  lemma UpdateFieldOutOfRangeClearsDefaults(form: Form, index: int)
    requires !(0 <= index < |form.llmList|)
    ensures var rows' := UpdateField(form, index, Default(true)).llmList;
      DefaultCount(rows') == 0 &&
      forall j :: 0 <= j < |rows'| ==> rows'[j] == form.llmList[j].(isDefault := false)
  {
    DefaultCountZero(UpdateField(form, index, Default(true)).llmList);
  }

  /** An edit of a field other than `default` keeps every row's `default`
      flag, so the number of default rows stays the same. */
  lemma UpdateFieldKeepsDefaultCount(form: Form, index: int, v: FieldValue)
    requires KeyOf(v) != DefaultKey
    ensures DefaultCount(UpdateField(form, index, v).llmList) == DefaultCount(form.llmList)
  {
    var rows, rows' := form.llmList, UpdateField(form, index, v).llmList;
    forall j | 0 <= j < |rows| ensures rows'[j].isDefault == rows[j].isDefault {
      assert Lookup(rows'[j], DefaultKey) == Lookup(rows[j], DefaultKey);
    }
    DefaultCountSameFlags(rows', rows);
  }

  /** No `updateField` call can create a second default row. */
  lemma UpdateFieldKeepsAtMostOneDefault(form: Form, index: int, v: FieldValue)
    requires DefaultCount(form.llmList) <= 1
    ensures DefaultCount(UpdateField(form, index, v).llmList) <= 1
  {
    var rows, rows' := form.llmList, UpdateField(form, index, v).llmList;
    if v == Default(true) {
      if 0 <= index < |rows| {
        UpdateFieldSelectsUniqueDefault(form, index);
      } else {
        UpdateFieldOutOfRangeClearsDefaults(form, index);
      }
    } else if KeyOf(v) != DefaultKey {
      UpdateFieldKeepsDefaultCount(form, index, v);
    } else if DefaultCount(rows) == 0 {
      DefaultCountZero(rows);
      assert forall j :: 0 <= j < |rows'| ==> !rows'[j].isDefault by {
        forall j | 0 <= j < |rows'| ensures !rows'[j].isDefault {
          assert j != index ==> rows'[j] == rows[j];
        }
      }
      DefaultCountZero(rows');
    } else if !(0 <= index < |rows|) {
      assert rows' == rows;
    } else {
      var k := ExactlyOneDefaultAt(rows);
      if k != index {
        // Clearing a flag that was not set: only row k stays default.
        DefaultCountOnlyAt(rows', k);
      } else {
        assert v == Default(false);
        assert forall j :: 0 <= j < |rows'| ==> !rows'[j].isDefault by {
          forall j | 0 <= j < |rows'| ensures !rows'[j].isDefault {
            assert j != index ==> rows'[j] == rows[j];
          }
        }
        DefaultCountZero(rows');
      }
    }
  }

  /** Selecting the default row several times in a row, each time with an
      index inside the list. */
  function SelectDefaults(form: Form, indices: seq<int>): Form
    decreases indices
  {
    if indices == [] then form
    else SelectDefaults(UpdateField(form, indices[0], Default(true)), indices[1..])
  }

  /** After any non-empty run of valid default selections exactly one row
      is the default, namely the one selected last, and the list keeps its
      length. */
  lemma {:induction false} SelectDefaultsLastWins(form: Form, indices: seq<int>)
    requires indices != []
    requires forall k :: 0 <= k < |indices| ==> 0 <= indices[k] < |form.llmList|
    ensures var rows' := SelectDefaults(form, indices).llmList;
      |rows'| == |form.llmList| &&
      ExactlyOneDefault(rows') &&
      rows'[indices[|indices| - 1]].isDefault
    decreases indices
  {
    var next := UpdateField(form, indices[0], Default(true));
    UpdateFieldSelectsUniqueDefault(form, indices[0]);
    if |indices| > 1 {
      SelectDefaultsLastWins(next, indices[1..]);
    }
  }

  // ---------------------------------------------------------------------
  // updateAutoLLMField
  // ---------------------------------------------------------------------

  /** `updateAutoLLMField(field, value)`: overwrites one field of
      `auto_llm`, every other field of it reads as before, and the list is
      not touched. */
  function UpdateAutoLlmField(form: Form, v: FieldValue): (form': Form)
    ensures form'.llmList == form.llmList
    ensures Lookup(form'.autoLlm, KeyOf(v)) == v
    ensures forall f :: f != KeyOf(v) ==> Lookup(form'.autoLlm, f) == Lookup(form.autoLlm, f)
  {
    form.(autoLlm := SetField(form.autoLlm, v))
  }

  // ---------------------------------------------------------------------
  // addNewRow
  // ---------------------------------------------------------------------

  /** `addNewRow()`: one baseline, non-default row at the end of the list;
      the old rows and `auto_llm` stay as they were. */
  function AddNewRow(form: Form): (form': Form)
    ensures |form'.llmList| == |form.llmList| + 1
    ensures form'.llmList[..|form.llmList|] == form.llmList
    ensures form'.llmList[|form.llmList|] == NEW_ROW && !NEW_ROW.isDefault
    ensures form'.autoLlm == form.autoLlm
  {
    form.(llmList := form.llmList + [NEW_ROW])
  }

  /** Adding a row never changes the number of default rows. */
  lemma AddNewRowKeepsDefaultCount(form: Form)
    ensures DefaultCount(AddNewRow(form).llmList) == DefaultCount(form.llmList)
  {
    DefaultCountAppend(form.llmList, [NEW_ROW]);
  }

  /** Hence adding a row keeps "exactly one default row"; but on an empty
      list it produces a list with a row and no default. */
  lemma AddNewRowOnEmptyListHasNoDefault(form: Form)
    requires form.llmList == []
    ensures var rows' := AddNewRow(form).llmList;
      |rows'| == 1 && !ExactlyOneDefault(rows')
  {
  }

  // ---------------------------------------------------------------------
  // deleteRow
  // ---------------------------------------------------------------------

  /** `rows.filter((_, i) => i !== index)`, position by position. */
  function Without(rows: seq<Row>, index: int): (rest: seq<Row>)
    ensures |rest| == if 0 <= index < |rows| then |rows| - 1 else |rows|
  {
    if rows == [] then []
    else (if index == 0 then [] else [rows[0]]) + Without(rows[1..], index - 1)
  }

  /** Filtering out a position inside the list is the list with that one
      position cut out. */
  lemma {:induction false} WithoutIsCut(rows: seq<Row>, index: int)
    requires 0 <= index < |rows|
    ensures Without(rows, index) == rows[..index] + rows[index + 1..]
  {
    var tail := rows[1..];
    if index == 0 {
      WithoutNoMatch(tail, -1);
      assert rows[..0] + rows[1..] == tail;
    } else {
      WithoutIsCut(tail, index - 1);
      var front, back := tail[..index - 1], tail[index..];
      assert front == rows[1..index] && back == rows[index + 1..];
      assert [rows[0]] + front == rows[..index];
      calc {
        Without(rows, index);
        [rows[0]] + Without(tail, index - 1);
        [rows[0]] + (front + back);
        ([rows[0]] + front) + back;
      }
    }
  }

  /** When no position matches, the filter keeps the whole list. */
  lemma {:induction false} WithoutNoMatch(rows: seq<Row>, index: int)
    requires !(0 <= index < |rows|)
    ensures Without(rows, index) == rows
  {
    if rows != [] {
      WithoutNoMatch(rows[1..], index - 1);
      assert [rows[0]] + rows[1..] == rows;
    }
  }

  /** The `map` that follows the filter: the first row becomes the default,
      every later row is kept. */
  function ForceFirstDefault(rows: seq<Row>): (rows': seq<Row>)
    ensures |rows'| == |rows|
    ensures rows != [] ==> rows'[0] == rows[0].(isDefault := true) && rows'[1..] == rows[1..]
  {
    if rows == [] then [] else [rows[0].(isDefault := true)] + rows[1..]
  }

  /** `deleteRow(index)`. */
  function DeleteRow(form: Form, index: int): (form': Form)
    ensures form'.autoLlm == form.autoLlm
  {
    form.(llmList := ForceFirstDefault(Without(form.llmList, index)))
  }

  /** With a valid index, the list loses exactly row `index`; the rows kept
      are the others in their old order; the first of them becomes the
      default and the rest are unchanged. */
  lemma DeleteRowRemovesOneRow(form: Form, index: int)
    requires 0 <= index < |form.llmList|
    ensures var rows, rows' := form.llmList, DeleteRow(form, index).llmList;
      var kept := rows[..index] + rows[index + 1..];
      |rows'| == |rows| - 1 &&
      (rows' != [] ==> rows'[0] == kept[0].(isDefault := true) && rows'[1..] == kept[1..]) &&
      (forall j :: 1 <= j < |rows'| ==> rows'[j] == rows[if j < index then j else j + 1])
  {
    WithoutIsCut(form.llmList, index);
  }

  /** Deleting the only row leaves an empty list. */
  lemma DeleteRowOfSingleton(form: Form)
    requires |form.llmList| == 1
    ensures DeleteRow(form, 0).llmList == []
  {
  }

  /** With an index outside the list nothing is removed, but the first row
      is still made the default. */
  lemma DeleteRowOutOfRange(form: Form, index: int)
    requires !(0 <= index < |form.llmList|)
    ensures DeleteRow(form, index).llmList == ForceFirstDefault(form.llmList)
  {
    WithoutNoMatch(form.llmList, index);
  }

  /** A non-empty result of `deleteRow` has its first row as a default row,
      plus every default row among the later kept rows. */
  lemma DeleteRowDefaultCount(form: Form, index: int)
    requires |Without(form.llmList, index)| > 0
    ensures var kept, rows' := Without(form.llmList, index), DeleteRow(form, index).llmList;
      rows'[0].isDefault &&
      DefaultCount(rows') == 1 + DefaultCount(kept[1..]) &&
      (ExactlyOneDefault(rows') <==> forall j :: 1 <= j < |kept| ==> !kept[j].isDefault)
  {
    var kept, rows' := Without(form.llmList, index), DeleteRow(form, index).llmList;
    assert rows'[1..] == kept[1..];
    DefaultCountZero(kept[1..]);
    forall j | 1 <= j < |kept| ensures kept[j] == kept[1..][j - 1] {
    }
  }

  /** Starting from exactly one default row at position `k`, deleting a
      valid row `index` from a list of two or more rows keeps exactly one
      default row if and only if the old default was the deleted row or is
      the first row kept. Otherwise the kept old default and the forced new
      one are two default rows. */
  lemma DeleteRowKeepsUniqueDefaultIff(form: Form, index: int, k: int)
    requires 0 <= index < |form.llmList| && |form.llmList| >= 2
    requires 0 <= k < |form.llmList|
    requires forall j :: 0 <= j < |form.llmList| ==> (form.llmList[j].isDefault <==> j == k)
    ensures ExactlyOneDefault(DeleteRow(form, index).llmList) <==>
      (k == index || k == (if index == 0 then 1 else 0))
  {
    var rows := form.llmList;
    var kept := Without(rows, index);
    WithoutIsCut(rows, index);
    DeleteRowDefaultCount(form, index);
    var first := if index == 0 then 1 else 0;
    forall p | 0 <= p < |kept| ensures kept[p] == rows[if p < index then p else p + 1] {
    }
    if k == index || k == first {
      forall j | 1 <= j < |kept| ensures !kept[j].isDefault {
      }
    } else {
      // The old default is kept at a position after the first one.
      var p := if k < index then k else k - 1;
      assert 1 <= p < |kept| && kept[p].isDefault;
    }
  }

  /** A concrete case of the above: with the default on the last of three
      rows, deleting the middle row leaves two default rows. */
  lemma DeleteRowCanLeaveTwoDefaults()
    ensures var a, b := INITIAL_ROW, NEW_ROW;
      var form := Form([b, b, a], DEFAULT_AUTO_LLM);
      ExactlyOneDefault(form.llmList) &&
      DefaultCount(DeleteRow(form, 1).llmList) == 2
  {
    var form := Form([NEW_ROW, NEW_ROW, INITIAL_ROW], DEFAULT_AUTO_LLM);
    DefaultCountOnlyAt(form.llmList, 2);
    WithoutIsCut(form.llmList, 1);
    assert DeleteRow(form, 1).llmList == [INITIAL_ROW, INITIAL_ROW];
  }

  // ---------------------------------------------------------------------
  // Two scenarios
  // ---------------------------------------------------------------------

  /** From the initial form, adding a row and then selecting it as the
      default moves the default from row 0 to row 1. */
  lemma AddThenSelectMovesDefault()
    ensures var form' := UpdateField(AddNewRow(InitialForm()), 1, Default(true));
      |form'.llmList| == 2 && !form'.llmList[0].isDefault && form'.llmList[1].isDefault &&
      ExactlyOneDefault(form'.llmList)
  {
  }

  /** With two rows and the default on row 0, deleting row 1 leaves one
      row, and it is the default. */
  lemma DeleteSecondOfTwoKeepsDefault(a: Row, b: Row)
    requires a.isDefault
    ensures var rows' := DeleteRow(Form([a, b], DEFAULT_AUTO_LLM), 1).llmList;
      |rows'| == 1 && rows'[0] == a && ExactlyOneDefault(rows')
  {
  }
}

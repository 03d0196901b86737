/**
 * The forms of src/main.js: how a submit handler turns a form into a record
 * (`new FormData(form)` iterated with `forEach`, writing `book[key] = value`),
 * what `form.reset()` does, and the `id` control the click handler fills in.
 *
 * A form is its sequence of named controls in document order; its FormData
 * entries are the controls' (name, value) pairs in that order.
 */
module Forms {
  import opened Wrappers
  import opened Api

  /** A named form control: its current value, the value `reset()` restores,
      and whether it is an `<input type="hidden">`. A hidden input has no value
      of its own apart from its `value` attribute, so setting its value also
      sets the value `reset()` restores. */
  datatype Control = Control(name: string, value: string, defaultValue: string, hidden: bool)

  /** One FormData entry, (key, value). */
  type Entry = (string, string)

  /** `new FormData(form)` */
  function FormData(form: seq<Control>): (r: seq<Entry>)
    ensures |r| == |form|
  {
    seq(|form|, i requires 0 <= i < |form| => (form[i].name, form[i].value))
  }

  // ---------------------------------------------------------------------------
  // Serialisation

  /** The record left by writing the entries one after another into an empty
      object: a later entry overwrites an earlier one with the same key. */
  function Collect(entries: seq<Entry>): (r: Record)
    ensures |r.Keys| <= |entries|
  {
    if entries == [] then map[]
    else
      var last := entries[|entries| - 1];
      Collect(entries[..|entries| - 1])[last.0 := last.1]
  }

  /** The record left by writing only the entries with a non-empty value
      (`if (!value) return;`): an entry with an empty value changes nothing. */
  function CollectNonEmpty(entries: seq<Entry>): (r: Record)
    ensures forall k :: k in r ==> r[k] != ""
  {
    if entries == [] then map[]
    else
      var last := entries[|entries| - 1];
      var front := CollectNonEmpty(entries[..|entries| - 1]);
      if last.1 == "" then front else front[last.0 := last.1]
  }

  /** The create and reset handlers' loop: every entry is copied. */
  method Serialize(entries: seq<Entry>) returns (book: Record)
    ensures book == Collect(entries)
  {
    book := map[];
    for i := 0 to |entries|
      invariant book == Collect(entries[..i])
    {
      assert entries[..i + 1][..i] == entries[..i];
      book := book[entries[i].0 := entries[i].1];
    }
    assert entries[..|entries|] == entries;
  }

  /** The update handler's loop: entries with an empty value are skipped. */
  method SerializeNonEmpty(entries: seq<Entry>) returns (book: Record)
    ensures book == CollectNonEmpty(entries)
  {
    book := map[];
    for i := 0 to |entries|
      invariant book == CollectNonEmpty(entries[..i])
    {
      assert entries[..i + 1][..i] == entries[..i];
      if entries[i].1 == "" {
        continue;
      }
      book := book[entries[i].0 := entries[i].1];
    }
    assert entries[..|entries|] == entries;
  }

  /** A key is in the record exactly when some entry has it. */
  lemma {:induction false} CollectKeys(entries: seq<Entry>, k: string)
    ensures k in Collect(entries) <==> exists i :: 0 <= i < |entries| && entries[i].0 == k
  {
    if entries != [] {
      var n := |entries| - 1;
      var front := entries[..n];
      CollectKeys(front, k);
      if k in Collect(front) {
        var i :| 0 <= i < |front| && front[i].0 == k;
        assert entries[i].0 == k;
      }
      if exists i :: 0 <= i < |entries| && entries[i].0 == k {
        var i :| 0 <= i < |entries| && entries[i].0 == k;
        if i < n {
          assert front[i].0 == k;
        }
      }
    }
  }

  /** The value for a key is that of the last entry with that key. */
  lemma {:induction false} CollectLastWins(entries: seq<Entry>, i: nat)
    requires i < |entries|
    requires forall j :: i < j < |entries| ==> entries[j].0 != entries[i].0
    ensures entries[i].0 in Collect(entries) && Collect(entries)[entries[i].0] == entries[i].1
  {
    var n := |entries| - 1;
    if i < n {
      var front := entries[..n];
      assert forall j :: i < j < |front| ==> front[j].0 != front[i].0;
      CollectLastWins(front, i);
    }
  }

  /** The update record: a key is kept exactly when some entry with that key has
      a non-empty value. */
  lemma {:induction false} UpdateRecordKeys(entries: seq<Entry>, k: string)
    ensures k in CollectNonEmpty(entries)
        <==> exists i :: 0 <= i < |entries| && entries[i].0 == k && entries[i].1 != ""
  {
    if entries != [] {
      var n := |entries| - 1;
      var front := entries[..n];
      UpdateRecordKeys(front, k);
      if k in CollectNonEmpty(front) {
        var i :| 0 <= i < |front| && front[i].0 == k && front[i].1 != "";
        assert entries[i] == front[i];
      }
      if exists i :: 0 <= i < |entries| && entries[i].0 == k && entries[i].1 != "" {
        var i :| 0 <= i < |entries| && entries[i].0 == k && entries[i].1 != "";
        if i < n {
          assert front[i] == entries[i];
        }
      }
    }
  }

  /** The update record maps a key to the value of the last entry with that
      key whose value is not empty: an empty entry never overwrites. */
  lemma {:induction false} UpdateRecordLastWins(entries: seq<Entry>, j: nat)
    requires j < |entries| && entries[j].1 != ""
    requires forall m :: j < m < |entries| && entries[m].0 == entries[j].0 ==> entries[m].1 == ""
    ensures entries[j].0 in CollectNonEmpty(entries)
    ensures CollectNonEmpty(entries)[entries[j].0] == entries[j].1
  {
    var n := |entries| - 1;
    if j < n {
      var front := entries[..n];
      assert front[j] == entries[j];
      assert forall m :: j < m < |front| ==> front[m] == entries[m];
      UpdateRecordLastWins(front, j);
    }
  }

  // ---------------------------------------------------------------------------
  // Form state

  /** `form.reset()`: every control goes back to its default value. */
  function ResetForm(form: seq<Control>): (r: seq<Control>)
    ensures |r| == |form|
    ensures forall i :: 0 <= i < |form| ==> r[i] == form[i].(value := form[i].defaultValue)
  {
    seq(|form|, i requires 0 <= i < |form| => form[i].(value := form[i].defaultValue))
  }

  /** The host page gives the form exactly one control named "id". */
  predicate HasIdControl(form: seq<Control>)
  {
    exists i :: 0 <= i < |form| && form[i].name == "id"
                && forall j :: 0 <= j < |form| && j != i ==> form[j].name != "id"
  }

  /** `form.elements.id.value`: the value of the first control named "id". */
  function IdValue(form: seq<Control>): (r: Option<string>)
    ensures r.Some? <==> exists i :: 0 <= i < |form| && form[i].name == "id"
  {
    if form == [] then None
    else if form[0].name == "id" then Some(form[0].value)
    else
      var r := IdValue(form[1..]);
      assert forall i :: 1 <= i < |form| ==> form[1..][i - 1] == form[i];
      r
  }

  /** `form.elements.id.value = id`: sets the control named "id", nothing else;
      a hidden control keeps the new value as the one `reset()` restores. */
  function SetId(form: seq<Control>, id: string): (r: seq<Control>)
    ensures |r| == |form|
    ensures forall i :: 0 <= i < |form| ==> r[i].name == form[i].name && r[i].hidden == form[i].hidden
    ensures forall i :: 0 <= i < |form| ==> r[i].value == if form[i].name == "id" then id else form[i].value
    ensures forall i :: 0 <= i < |form| ==>
              r[i].defaultValue == if form[i].name == "id" && form[i].hidden then id else form[i].defaultValue
  {
    seq(|form|, i requires 0 <= i < |form| => SetControl(form[i], id))
  }

  function SetControl(c: Control, id: string): Control
  {
    if c.name != "id" then c
    else if c.hidden then c.(value := id, defaultValue := id)
    else c.(value := id)
  }

  /** After the id control is set, the id is what the form reports. */
  lemma {:induction false} IdValueAfterSetId(form: seq<Control>, id: string)
    requires HasIdControl(form)
    ensures IdValue(SetId(form, id)) == Some(id)
  {
    var i :| 0 <= i < |form| && form[i].name == "id";
    IdValueAt(SetId(form, id), i);
  }

  /** The id control's value is what the form reports. */
  lemma {:induction false} IdValueAt(form: seq<Control>, i: nat)
    requires i < |form| && form[i].name == "id"
    requires forall j :: 0 <= j < |form| && j != i ==> form[j].name != "id"
    ensures IdValue(form) == Some(form[i].value)
  {
    if i > 0 {
      assert form[0].name != "id";
      IdValueAt(form[1..], i - 1);
    }
  }

  /** Once the id control is set, a record made from the whole form carries that id. */
  lemma SubmittedIdAfterSetId(form: seq<Control>, id: string)
    requires HasIdControl(form)
    ensures "id" in Collect(FormData(SetId(form, id)))
    ensures Collect(FormData(SetId(form, id)))["id"] == id
  {
    var entries := FormData(SetId(form, id));
    var i :| 0 <= i < |form| && form[i].name == "id"
             && forall j :: 0 <= j < |form| && j != i ==> form[j].name != "id";
    assert entries[i] == ("id", id);
    CollectLastWins(entries, i);
  }

  /** The update record carries the id that was set when it is not empty; an
      empty id is skipped and the handler then sees no id at all. */
  lemma UpdateIdAfterSetId(form: seq<Control>, id: string)
    requires HasIdControl(form)
    ensures IdText(CollectNonEmpty(FormData(SetId(form, id)))) == if id != "" then id else "undefined"
  {
    var entries := FormData(SetId(form, id));
    var i :| 0 <= i < |form| && form[i].name == "id"
             && forall j :: 0 <= j < |form| && j != i ==> form[j].name != "id";
    assert entries[i] == ("id", id);
    assert forall m :: 0 <= m < |entries| && m != i ==> entries[m].0 != "id";
    if id != "" {
      UpdateRecordLastWins(entries, i);
    } else {
      UpdateRecordKeys(entries, "id");
    }
  }

  /** What `reset()` leaves in the id control after a click: the clicked id when
      the control is hidden, its own default value otherwise. */
  lemma IdAfterSetIdAndReset(form: seq<Control>, id: string, i: nat)
    requires i < |form| && form[i].name == "id"
    requires forall j :: 0 <= j < |form| && j != i ==> form[j].name != "id"
    ensures IdValue(ResetForm(SetId(form, id))) == Some(if form[i].hidden then id else form[i].defaultValue)
  {
    var r := ResetForm(SetId(form, id));
    assert r[i].name == "id";
    IdValueAt(r, i);
  }
}

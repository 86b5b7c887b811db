/** Form validation: a submit is blocked, its empty required fields marked
    red and one error toast appended to the page, whenever a required input or
    textarea holds only white space. */
module FormGuard {
  import opened JsText

  /** The element kinds a form may hold; only input and textarea are checked. */
  datatype Tag = Input | TextArea | Select | OtherControl

  /** A form control: its element kind, whether it has the required
      attribute, its current value and its inline border colour ("" when none). */
  datatype Field = Field(tag: Tag, required: bool, value: string, borderColor: string)

  /** An error toast appended to the body: its node identity, its text and
      whether its fade-out (opacity 0) has started. */
  datatype Toast = Toast(id: nat, text: string, fading: bool)

  const ErrorColor: string := "#dc2626"
  const ToastText: string := "Please fill in all required fields"

  /** Selected by 'input[required], textarea[required]'. */
  predicate Checked(f: Field) {
    (f.tag == Input || f.tag == TextArea) && f.required
  }

  /** A checked field whose value is nothing but white space: the fields
      that the submit handler marks red. `FailsIsTrimTest` shows this is the
      handler's test on the trimmed value. */
  predicate Fails(f: Field) {
    Checked(f) && Blank(f.value)
  }

  /** A submit of these fields is blocked: some checked field fails, so the
      flag isValid ends false. */
  predicate Blocks(fields: seq<Field>) {
    exists i :: 0 <= i < |fields| && Fails(fields[i])
  }

  /** A field after the validation loop: the error border if it fails,
      untouched otherwise. */
  function MarkOne(f: Field): (r: Field)
    ensures r.tag == f.tag && r.required == f.required && r.value == f.value
    ensures r.borderColor == if Fails(f) then ErrorColor else f.borderColor
  {
    if Fails(f) then f.(borderColor := ErrorColor) else f
  }

  /** The fields of a form after the validation loop. */
  function Marked(fields: seq<Field>): (r: seq<Field>)
    ensures |r| == |fields|
    ensures forall i :: 0 <= i < |fields| ==> r[i] == MarkOne(fields[i])
  {
    if fields == [] then []
    else Marked(fields[..|fields| - 1]) + [MarkOne(fields[|fields| - 1])]
  }

  /** With every checked field filled the loop leaves the form untouched. */
  lemma UnblockedLeavesFieldsAlone(fields: seq<Field>)
    requires !Blocks(fields)
    ensures Marked(fields) == fields
  {
  }

  /** A field fails exactly when the handler's test holds: it is a required
      input or textarea and its trimmed value is empty. A required select
      never fails, whatever its value. */
  lemma FailsIsTrimTest(f: Field)
    ensures Fails(f) <==> (f.tag == Input || f.tag == TextArea) && f.required && Trim(f.value) == []
    ensures f.tag == Select ==> !Fails(f)
  {
    TrimEmptyIffBlank(f.value);
  }

  /** The loop of the submit handler over the checked fields of one form:
      it folds the flag isValid and gives the failing fields the error border. */
  method Validate(original: seq<Field>) returns (isValid: bool, fields: seq<Field>)
    ensures isValid <==> !Blocks(original)
    ensures fields == Marked(original)
  {
    fields := original;
    isValid := true;
    for i := 0 to |fields|
      invariant |fields| == |original|
      invariant forall j :: 0 <= j < i ==> fields[j] == MarkOne(original[j])
      invariant forall j :: i <= j < |fields| ==> fields[j] == original[j]
      invariant isValid <==> forall j :: 0 <= j < i ==> !Fails(original[j])
    {
      var field := fields[i];
      if Fails(field) {
        isValid := false;
        fields := fields[i := field.(borderColor := ErrorColor)];
      }
    }
    assert forall j :: 0 <= j < |fields| ==> fields[j] == Marked(original)[j];
  }

  /** The forms of the page and the toasts on its body. */
  class Page {
    var forms: seq<seq<Field>>
    var toasts: seq<Toast>
    /** An identity no toast has: what createElement gives next. */
    var nextToast: nat

    /** Toasts are distinct nodes, each older than the next identity. */
    ghost predicate Valid()
      reads this
    {
      DistinctIds(toasts) && forall k :: 0 <= k < |toasts| ==> toasts[k].id < nextToast
    }

    constructor (forms: seq<seq<Field>>)
      ensures Valid() && this.forms == forms && toasts == [] && nextToast == 0
    {
      this.forms := forms;
      toasts := [];
      nextToast := 0;
    }

    /** The submit handler of form `f`. The loop folds isValid over the
        fields and marks each failing one red. A blocked submit (the returned
        flag: preventDefault was called) appends exactly one new toast, even
        when earlier toasts are still shown; a submit with every checked field
        filled changes nothing at all. */
    method Submit(f: nat) returns (blocked: bool)
      requires Valid() && f < |forms|
      modifies this
      ensures Valid()
      ensures blocked <==> Blocks(old(forms)[f])
      ensures forms == old(forms)[f := Marked(old(forms)[f])]
      ensures toasts == if blocked then old(toasts) + [Toast(old(nextToast), ToastText, false)]
                        else old(toasts)
      ensures !blocked ==> forms == old(forms) && nextToast == old(nextToast)
    {
      var isValid, fields := Validate(forms[f]);
      blocked := !isValid;
      if blocked {
        forms := forms[f := fields];
        ShowToast(ToastText);
      } else {
        UnblockedLeavesFieldsAlone(forms[f]);
      }
    }

    /** The error notice: one new toast appended to the body, whatever toasts
        are already there. */
    method ShowToast(text: string)
      requires Valid()
      modifies this
      ensures Valid() && forms == old(forms) && nextToast == old(nextToast) + 1
      ensures toasts == old(toasts) + [Toast(old(nextToast), text, false)]
    {
      toasts := toasts + [Toast(nextToast, text, false)];
      nextToast := nextToast + 1;
    }

    /** The 2000 ms timer of a marked field fires: its inline border colour is
        cleared, whatever it is by then; nothing else changes. */
    method ClearMark(f: nat, i: nat)
      requires Valid() && f < |forms| && i < |forms[f]|
      modifies this
      ensures Valid()
      ensures forms == old(forms)[f := old(forms)[f][i := old(forms)[f][i].(borderColor := "")]]
      ensures toasts == old(toasts) && nextToast == old(nextToast)
    {
      forms := forms[f := forms[f][i := forms[f][i].(borderColor := "")]];
    }

    /** The 3000 ms timer of toast `id` fires: its opacity goes to 0. */
    method FadeToast(id: nat)
      requires Valid()
      modifies this
      ensures Valid() && forms == old(forms) && nextToast == old(nextToast)
      ensures toasts == WithFaded(old(toasts), id)
    {
      toasts := WithFaded(toasts, id);
    }

    /** The 300 ms timer after the fade fires: the toast leaves the body; the
        other toasts stay, in order. */
    method RemoveToast(id: nat)
      requires Valid()
      modifies this
      ensures Valid() && forms == old(forms) && nextToast == old(nextToast)
      ensures toasts == WithoutToast(old(toasts), id)
      ensures forall k :: 0 <= k < |old(toasts)| && old(toasts)[k].id == id ==>
        toasts == old(toasts)[..k] + old(toasts)[k + 1..]
    {
      var before := toasts;
      toasts := WithoutToast(toasts, id);
      DistinctAfterWithout(before, id);
      forall k | 0 <= k < |before| && before[k].id == id
        ensures toasts == before[..k] + before[k + 1..]
      {
        WithoutToastAt(before, id, k);
      }
    }
  }

  /** The toasts with toast `id` fading and every other one as it was. */
  function WithFaded(ts: seq<Toast>, id: nat): (r: seq<Toast>)
    ensures |r| == |ts|
    ensures forall k :: 0 <= k < |ts| ==> r[k].id == ts[k].id && r[k].text == ts[k].text
    ensures forall k :: 0 <= k < |ts| ==> r[k].fading == (ts[k].fading || ts[k].id == id)
  {
    if ts == [] then []
    else [if ts[0].id == id then ts[0].(fading := true) else ts[0]] + WithFaded(ts[1..], id)
  }

  /** No two toasts are the same node. */
  predicate DistinctIds(ts: seq<Toast>) {
    forall j, k :: 0 <= j < k < |ts| ==> ts[j].id != ts[k].id
  }

  /** The toasts other than `id`, in order. */
  function WithoutToast(ts: seq<Toast>, id: nat): (r: seq<Toast>)
    ensures forall t :: t in r <==> t in ts && t.id != id
    ensures (forall k :: 0 <= k < |ts| ==> ts[k].id != id) ==> r == ts
  {
    if ts == [] then []
    else if ts[0].id == id then WithoutToast(ts[1..], id)
    else [ts[0]] + WithoutToast(ts[1..], id)
  }

  /** Removing a toast that is on the page takes out exactly that one and
      keeps what precedes and follows it, in order. */
  lemma {:induction false} WithoutToastAt(ts: seq<Toast>, id: nat, k: nat)
    requires DistinctIds(ts) && k < |ts| && ts[k].id == id
    ensures WithoutToast(ts, id) == ts[..k] + ts[k + 1..]
  {
    if k == 0 {
      assert forall j :: 0 <= j < |ts[1..]| ==> ts[1..][j].id != id;
    } else {
      var tail := ts[1..];
      assert tail[k - 1].id == id;
      calc {
        WithoutToast(ts, id);
        [ts[0]] + WithoutToast(tail, id);
        { WithoutToastAt(tail, id, k - 1); }
        [ts[0]] + (tail[..k - 1] + tail[k..]);
        ([ts[0]] + tail[..k - 1]) + tail[k..];
        { assert ts[..k] == [ts[0]] + tail[..k - 1]; assert ts[k + 1..] == tail[k..]; }
        ts[..k] + ts[k + 1..];
      }
    }
  }

  /** Removing a toast keeps the others distinct. */
  lemma {:induction false} DistinctAfterWithout(ts: seq<Toast>, id: nat)
    requires DistinctIds(ts)
    ensures DistinctIds(WithoutToast(ts, id))
  {
    if ts != [] {
      DistinctAfterWithout(ts[1..], id);
      if ts[0].id != id {
        var rest := WithoutToast(ts[1..], id);
        forall k | 0 <= k < |rest| ensures rest[k].id != ts[0].id {
          assert rest[k] in ts[1..];
        }
      }
    }
  }

  /** Two blocked submits of the same form leave two toasts on the page:
      toasts are not deduplicated. */
  method TwoBlockedSubmits() returns (shown: nat)
    ensures shown == 2
  {
    var blankName := Field(Input, true, " \t", "");
    var form := [blankName, Field(Select, true, "", "")];
    assert Blank(blankName.value);
    assert Fails(form[0]);
    var page := new Page([form]);
    var first := page.Submit(0);
    assert page.forms[0][0] == MarkOne(blankName);
    assert Fails(page.forms[0][0]);
    var second := page.Submit(0);
    shown := |page.toasts|;
  }
}

/**
 * The question card's selection logic: what a click on an option does to the
 * list of selected ids, and when the submit button is enabled.
 */
module QuestionCard {
  import opened Lists
  import opened Schema

  /**
   * The selection without any occurrence of `id`: every other id keeps all its
   * occurrences, and (RemoveAllConcat) their order.
   */
  function RemoveAll(s: seq<string>, id: string): (r: seq<string>)
    ensures |r| <= |s|
    ensures id !in r
    ensures forall y :: y != id ==> (y in r <==> y in s)
    ensures multiset(r) == multiset(s)[id := 0]
  {
    if s == [] then []
    else
      var rest := RemoveAll(s[1..], id);
      assert forall y :: y in s <==> y == s[0] || y in s[1..];
      assert s == [s[0]] + s[1..];
      assert multiset(s) == multiset{s[0]} + multiset(s[1..]);
      if s[0] == id then rest else [s[0]] + rest
  }

  lemma {:induction false} RemoveAllConcat(a: seq<string>, b: seq<string>, id: string)
    ensures RemoveAll(a + b, id) == RemoveAll(a, id) + RemoveAll(b, id)
  {
    if a != [] {
      assert (a + b)[1..] == a[1..] + b;
      RemoveAllConcat(a[1..], b, id);
    } else {
      assert a + b == b;
    }
  }

  lemma {:induction false} RemoveAllAbsent(s: seq<string>, id: string)
    requires id !in s
    ensures RemoveAll(s, id) == s
  {
    if s != [] {
      RemoveAllAbsent(s[1..], id);
    }
  }

  lemma {:induction false} RemoveAllKeepsNoDup(s: seq<string>, id: string)
    requires NoDup(s)
    ensures NoDup(RemoveAll(s, id))
  {
    if s != [] {
      var t := s[1..];
      assert NoDup(t) by {
        forall i, j | 0 <= i < j < |t| ensures t[i] != t[j] {
          assert t[i] == s[i + 1] && t[j] == s[j + 1];
        }
      }
      RemoveAllKeepsNoDup(t, id);
      assert s[0] !in t by {
        forall k | 0 <= k < |t| ensures t[k] != s[0] {
          assert t[k] == s[k + 1];
        }
      }
    }
  }

  /**
   * A click on option `answerId`: a SINGLE question's selection becomes that
   * id alone; otherwise the id is removed if selected and appended if not.
   */
  function HandleAnswerClick(qtype: string, selected: seq<string>, answerId: string): (r: seq<string>)
    ensures answerId in r <==> (qtype == SINGLE || answerId !in selected)
    ensures forall y :: y != answerId ==> (y in r <==> qtype != SINGLE && y in selected)
  {
    if qtype == SINGLE then [answerId]
    else if answerId in selected then RemoveAll(selected, answerId)
    else selected + [answerId]
  }

  /** SINGLE: the new selection is exactly the clicked id, whatever was selected before. */
  lemma SingleClickReplaces(selected: seq<string>, answerId: string)
    ensures HandleAnswerClick(SINGLE, selected, answerId) == [answerId]
  {
  }

  /** MULTIPLE: an unselected id goes at the end, the earlier ids keep their order. */
  lemma MultipleClickAppends(qtype: string, selected: seq<string>, answerId: string)
    requires qtype != SINGLE && answerId !in selected
    ensures HandleAnswerClick(qtype, selected, answerId) == selected + [answerId]
  {
  }

  /**
   * MULTIPLE: a selected id is dropped everywhere, and what surrounds any one
   * occurrence of it keeps its order; with a single occurrence, the ids around
   * it are left exactly as they were.
   */
  lemma MultipleClickRemoves(qtype: string, before: seq<string>, after: seq<string>, answerId: string)
    requires qtype != SINGLE
    ensures HandleAnswerClick(qtype, before + [answerId] + after, answerId)
      == RemoveAll(before, answerId) + RemoveAll(after, answerId)
    ensures answerId !in before && answerId !in after ==>
      HandleAnswerClick(qtype, before + [answerId] + after, answerId) == before + after
  {
    var s := before + [answerId] + after;
    assert answerId in s by { assert s[|before|] == answerId; }
    RemoveAllConcat(before + [answerId], after, answerId);
    RemoveAllConcat(before, [answerId], answerId);
    assert RemoveAll([answerId], answerId) == [];
    assert RemoveAll(before + [answerId], answerId) == RemoveAll(before, answerId);
    if answerId !in before && answerId !in after {
      RemoveAllAbsent(before, answerId);
      RemoveAllAbsent(after, answerId);
    }
  }

  /** MULTIPLE: clicking an unselected id twice gives back the original selection. */
  lemma ToggleTwice(qtype: string, selected: seq<string>, answerId: string)
    requires qtype != SINGLE && answerId !in selected
    ensures HandleAnswerClick(qtype, HandleAnswerClick(qtype, selected, answerId), answerId) == selected
  {
    MultipleClickRemoves(qtype, selected, [], answerId);
    assert selected + [answerId] + [] == selected + [answerId];
    assert selected + [] == selected;
  }

  /** A duplicate-free selection stays duplicate-free. */
  lemma ClickKeepsNoDup(qtype: string, selected: seq<string>, answerId: string)
    requires NoDup(selected)
    ensures NoDup(HandleAnswerClick(qtype, selected, answerId))
  {
    if qtype != SINGLE {
      if answerId in selected {
        RemoveAllKeepsNoDup(selected, answerId);
      } else {
        var r := selected + [answerId];
        forall i, j | 0 <= i < j < |r| ensures r[i] != r[j] {
          if j == |selected| {
            assert r[i] == selected[i];
          }
        }
      }
    }
  }

  /** The submit button is disabled while the selection is empty or a submission is in flight. */
  predicate SubmitDisabled(selected: seq<string>, submitting: bool)
    ensures !SubmitDisabled(selected, submitting) <==> (selected != [] && !submitting)
  {
    |selected| == 0 || submitting
  }

  /** After a click that leaves the id selected, the button is enabled unless a submission is in flight. */
  lemma ClickEnablesSubmit(qtype: string, selected: seq<string>, answerId: string, submitting: bool)
    requires qtype == SINGLE || answerId !in selected
    ensures SubmitDisabled(HandleAnswerClick(qtype, selected, answerId), submitting) <==> submitting
  {
    assert answerId in HandleAnswerClick(qtype, selected, answerId);
  }

  /** Deselecting the only selected id of a MULTIPLE question disables the button again. */
  lemma DeselectLastDisablesSubmit(qtype: string, answerId: string, submitting: bool)
    requires qtype != SINGLE
    ensures SubmitDisabled(HandleAnswerClick(qtype, [answerId], answerId), submitting)
  {
    MultipleClickRemoves(qtype, [], [], answerId);
    assert [] + [answerId] + [] == [answerId];
  }
}

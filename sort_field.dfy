/**
 * The `SortField` validation rule: splits a sort specification into
 * tokens, records every token the model does not allow, and words the
 * error message from what it recorded.
 */
module SortFieldRule {
  import opened Php
  import opened Sequences
  import opened Sortable

  /** The validated value: a comma-separated string or an array of strings. */
  datatype Value = Str(s: string) | Arr(items: seq<string>)

  /**
   * What runtime reflection finds under a class name: the model's sort
   * configuration and whether the class has an `isSortable` method.  A
   * registry `map<string, ModelClass>` stands for `class_exists` (the name is
   * a key) and `new $modelClass`.
   */
  datatype ModelClass = ModelClass(model: Model, hasIsSortable: bool)

  /**
   * The raw fields of a value, as `passes` takes them: an array as it is, a string
   * split on every ','; gluing a string's fields back with ',' restores it.
   */
  function Fields(value: Value): (fields: seq<string>)
    ensures value.Str? ==>
      && |fields| >= 1
      && (forall i :: 0 <= i < |fields| ==> ',' !in fields[i])
      && Implode([','], fields) == value.s
    ensures value.Arr? ==> fields == value.items
  {
    match value
    case Str(s) => ImplodeExplode(',', s); Explode(',', s)
    case Arr(items) => items
  }

  /**
   * The string form and the array form of the same specification yield the
   * same fields.
   */
  lemma StringAndArrayFormsAgree(items: seq<string>)
    requires |items| >= 1
    requires forall i :: 0 <= i < |items| ==> ',' !in items[i]
    ensures Fields(Str(Implode([','], items))) == Fields(Arr(items))
  {
    ExplodeImplode(',', items);
  }

  /**
   * The tokens that `passes` checks: each field trimmed, those
   * that are then empty ("" or "0") skipped, the rest kept in order.
   */
  function Normalize(fields: seq<string>): (tokens: seq<string>)
    ensures |tokens| <= |fields|
    ensures forall k :: 0 <= k < |tokens| ==> !IsEmpty(tokens[k])
  {
    if |fields| == 0 then []
    else
      var init := Normalize(fields[..|fields| - 1]);
      var t := Trim(fields[|fields| - 1]);
      if IsEmpty(t) then init else init + [t]
  }

  /** A field whose trimmed form is not empty is checked. */
  lemma {:induction false} NormalizeKeeps(fields: seq<string>, i: int)
    requires 0 <= i < |fields| && !IsEmpty(Trim(fields[i]))
    ensures Trim(fields[i]) in Normalize(fields)
  {
    var n := |fields| - 1;
    if i < n {
      assert fields[..n][i] == fields[i];
      NormalizeKeeps(fields[..n], i);
    }
  }

  /** Every checked token is the trimmed form of some field. */
  lemma {:induction false} NormalizeFrom(fields: seq<string>, t: string)
    requires t in Normalize(fields)
    ensures exists i :: 0 <= i < |fields| && Trim(fields[i]) == t
  {
    var n := |fields| - 1;
    if t != Trim(fields[n]) {
      NormalizeFrom(fields[..n], t);
      var i :| 0 <= i < n && Trim(fields[..n][i]) == t;
      assert fields[i] == fields[..n][i];
    }
  }

  /** Every field trimmed, none skipped. */
  function Trimmed(fields: seq<string>): seq<string> {
    seq(|fields|, i requires 0 <= i < |fields| => Trim(fields[i]))
  }

  /**
   * The checked tokens are the trimmed fields in input order with the empty
   * ones taken out: every other trimmed field is kept, as often as it occurs.
   */
  lemma {:induction false} NormalizeFiltersTrimmed(fields: seq<string>)
    ensures IsSubseq(Normalize(fields), Trimmed(fields))
    ensures forall x :: multiset(Normalize(fields))[x] ==
                        if IsEmpty(x) then 0 else multiset(Trimmed(fields))[x]
  {
    if |fields| > 0 {
      var n := |fields| - 1;
      var init, t := fields[..n], Trim(fields[n]);
      NormalizeFiltersTrimmed(init);
      var tokens, trimmed := Normalize(init), Trimmed(init);
      assert Trimmed(fields) == trimmed + [t];
      if IsEmpty(t) {
        SubseqExtend(tokens, trimmed, t);
      } else {
        assert (tokens + [t])[..|tokens|] == tokens;
        assert (trimmed + [t])[..|trimmed|] == trimmed;
      }
    }
  }

  /**
   * The tokens `isSortable` rejects, in their order, each as often as it
   * occurs, with its leading '-' kept.
   */
  function Rejected(sortable: seq<string>, tokens: seq<string>): (r: seq<string>)
    ensures IsSubseq(r, tokens)
  {
    if |tokens| == 0 then []
    else
      var init := tokens[..|tokens| - 1];
      var last := tokens[|tokens| - 1];
      assert tokens == init + [last];
      var r' := Rejected(sortable, init);
      if IsSortable(sortable, last) then
        SubseqExtend(r', init, last);
        r'
      else
        assert (r' + [last])[..|r'|] == r';
        r' + [last]
  }

  /**
   * A token is recorded as often as it occurs when `isSortable` rejects it,
   * and never otherwise.
   */
  lemma {:induction false} RejectedCounts(sortable: seq<string>, tokens: seq<string>)
    ensures forall x :: multiset(Rejected(sortable, tokens))[x] ==
                        if IsSortable(sortable, x) then 0 else multiset(tokens)[x]
  {
    if |tokens| > 0 {
      var init := tokens[..|tokens| - 1];
      assert tokens == init + [tokens[|tokens| - 1]];
      RejectedCounts(sortable, init);
    }
  }

  /** Every checked token is already trimmed. */
  lemma NormalizedTokensAreTrimmed(fields: seq<string>)
    ensures forall t :: t in Normalize(fields) ==> Trim(t) == t
  {
    forall t | t in Normalize(fields) ensures Trim(t) == t {
      NormalizeFrom(fields, t);
      var i :| 0 <= i < |fields| && Trim(fields[i]) == t;
      TrimIdempotent(fields[i]);
    }
  }

  /** Every token passes `isSortable`. */
  predicate AllSortable(sortable: seq<string>, tokens: seq<string>) {
    forall t :: t in tokens ==> IsSortable(sortable, t)
  }

  /** Nothing is rejected exactly when every token is sortable. */
  lemma NoneRejectedIffAllSortable(sortable: seq<string>, tokens: seq<string>)
    ensures Rejected(sortable, tokens) == [] <==> AllSortable(sortable, tokens)
  {
  }

  /** A value is rejected for every occurrence of a token that fails `isSortable`. */
  function InvalidFields(sortable: seq<string>, value: Value): seq<string> {
    Rejected(sortable, Normalize(Fields(value)))
  }

  /** A field between single quotes, as the message shows it. */
  function Quote(field: string): string {
    "'" + field + "'"
  }

  function Quoted(fields: seq<string>): seq<string> {
    seq(|fields|, i requires 0 <= i < |fields| => Quote(fields[i]))
  }

  /** `SortField::message()` for the recorded fields. */
  function NotAllowedMessage(invalidFields: seq<string>): string {
    if |invalidFields| == 1 then "The sort field " + Quote(invalidFields[0]) + " is not allowed."
    else "The sort fields " + Implode(", ", Quoted(invalidFields)) + " are not allowed."
  }

  /** The message names the recorded field at `i`, in single quotes. */
  lemma MessageNamesField(invalidFields: seq<string>, i: int)
    requires 0 <= i < |invalidFields|
    ensures Occurs(Quote(invalidFields[i]), NotAllowedMessage(invalidFields))
  {
    var q := Quote(invalidFields[i]);
    var msg := NotAllowedMessage(invalidFields);
    if |invalidFields| == 1 {
      assert InfixAt(q, q, 0);
      InfixShift(q, q, 0, "The sort field ", " is not allowed.");
      assert InfixAt(msg, q, |"The sort field "|);
    } else {
      var list := Implode(", ", Quoted(invalidFields));
      ImplodeContains(", ", Quoted(invalidFields), i);
      var k :| 0 <= k <= |list| && InfixAt(list, q, k);
      InfixShift(list, q, k, "The sort fields ", " are not allowed.");
      assert InfixAt(msg, q, |"The sort fields "| + k);
    }
  }

  /** The message names every recorded field, each in single quotes. */
  lemma MessageNamesEveryField(invalidFields: seq<string>)
    ensures forall i :: 0 <= i < |invalidFields| ==>
      Occurs(Quote(invalidFields[i]), NotAllowedMessage(invalidFields))
  {
    forall i | 0 <= i < |invalidFields|
      ensures Occurs(Quote(invalidFields[i]), NotAllowedMessage(invalidFields))
    {
      MessageNamesField(invalidFields, i);
    }
  }

  /** With one recorded field the message is in the singular. */
  lemma MessageForOneField(f: string)
    ensures NotAllowedMessage([f]) == "The sort field '" + f + "' is not allowed."
  {
  }

  /** Several recorded fields are listed in order, quoted, separated by ", ". */
  lemma MessageForTwoFields(f: string, g: string)
    ensures NotAllowedMessage([f, g]) == "The sort fields '" + f + "', '" + g + "' are not allowed."
  {
    var a, b := Quote(f), Quote(g);
    assert Quoted([f, g]) == [a, b];
    assert [a, b][1..] == [b];
    calc {
      NotAllowedMessage([f, g]);
      "The sort fields " + Implode(", ", [a, b]) + " are not allowed.";
      "The sort fields " + (a + ", " + b) + " are not allowed.";
      { assert "The sort fields '" == "The sort fields " + "'";
        assert "', '" == "'" + ", " + "'";
        assert "' are not allowed." == "'" + " are not allowed."; }
      "The sort fields '" + f + "', '" + g + "' are not allowed.";
    }
  }

  /** With nothing recorded the list in the plural message is empty. */
  lemma MessageForNoFields()
    ensures NotAllowedMessage([]) == "The sort fields  are not allowed."
  {
  }

  /** The rule object; `invalidFields` survives `passes` for `message`. */
  class SortField {
    const modelClass: string
    var invalidFields: seq<string>

    constructor (modelClass: string)
      ensures this.modelClass == modelClass && invalidFields == []
    {
      this.modelClass := modelClass;
      invalidFields := [];
    }

    /**
     * `SortField::passes($attribute, $value)`.  A missing class or one
     * without `isSortable` fails at once and leaves `invalidFields` alone;
     * otherwise `invalidFields` becomes exactly the rejected tokens and the
     * rule passes when there are none.
     */
    method Passes(classes: map<string, ModelClass>, attribute: string, value: Value) returns (ok: bool)
      modifies this
      ensures !(modelClass in classes && classes[modelClass].hasIsSortable) ==>
        !ok && invalidFields == old(invalidFields)
      ensures modelClass in classes && classes[modelClass].hasIsSortable ==>
        && invalidFields == InvalidFields(classes[modelClass].model.sortable, value)
        && (ok <==> invalidFields == [])
    {
      if modelClass !in classes {
        return false;
      }
      var model := classes[modelClass];
      if !model.hasIsSortable {
        return false;
      }
      RecordRejected(model.model.sortable, Fields(value));
      ok := |invalidFields| == 0;
    }

    /**
     * The recording loop of `passes`: `invalidFields` is reset, then each field is trimmed,
     * skipped when empty, and appended when `isSortable` rejects it.
     */
    method RecordRejected(sortable: seq<string>, fields: seq<string>)
      modifies this
      ensures invalidFields == Rejected(sortable, Normalize(fields))
    {
      invalidFields := [];
      ghost var tokens: seq<string> := [];
      for i := 0 to |fields|
        invariant tokens == Normalize(fields[..i])
        invariant invalidFields == Rejected(sortable, tokens)
      {
        var field := Trim(fields[i]);
        ghost var before := tokens;
        if !IsEmpty(field) {
          if !IsSortable(sortable, field) {
            invalidFields := invalidFields + [field];
          }
          tokens := tokens + [field];
        }
        assert tokens == Normalize(fields[..i + 1]) by {
          assert fields[..i + 1][..i] == fields[..i];
          assert fields[..i + 1][i] == fields[i];
        }
        assert invalidFields == Rejected(sortable, tokens) by {
          if !IsEmpty(field) {
            assert (before + [field])[..|before|] == before;
          }
        }
      }
      assert fields[..|fields|] == fields;
    }

    /** `message()`: the error text built from the recorded fields. */
    function Message(): (m: string)
      reads this
      ensures forall i :: 0 <= i < |invalidFields| ==> Occurs(Quote(invalidFields[i]), m)
    {
      MessageNamesEveryField(invalidFields);
      NotAllowedMessage(invalidFields)
    }
  }
}

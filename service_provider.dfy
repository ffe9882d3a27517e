/**
 * What the service provider registers with the validator: the `sort_fields`
 * rule as a closure that stops at the first disallowed token, and the
 * replacer that words its error message.
 */
module SortableServiceProvider {
  import opened Php
  import opened Sortable
  import opened SortFieldRule

  /** The rule names a model class: `$parameters[0]` is set and not empty. */
  predicate NamesModel(parameters: seq<string>) {
    |parameters| > 0 && !IsEmpty(parameters[0])
  }

  /** The named class exists and has an `isSortable` method. */
  predicate ResolvesModel(classes: map<string, ModelClass>, parameters: seq<string>) {
    NamesModel(parameters) && parameters[0] in classes && classes[parameters[0]].hasIsSortable
  }

  /**
   * The `sort_fields` closure that `boot()` registers with
   * `Validator::extend`.  Without a usable model class it fails; otherwise it
   * passes exactly when every checked token is sortable.
   */
  method SortFields(classes: map<string, ModelClass>, attribute: string, value: Value, parameters: seq<string>)
    returns (ok: bool)
    ensures !ResolvesModel(classes, parameters) ==> !ok
    ensures ResolvesModel(classes, parameters) ==>
      (ok <==> AllSortable(classes[parameters[0]].model.sortable, Normalize(Fields(value))))
  {
    if |parameters| == 0 || IsEmpty(parameters[0]) {
      return false;
    }
    var modelClass := parameters[0];
    if modelClass !in classes {
      return false;
    }
    var model := classes[modelClass];
    if !model.hasIsSortable {
      return false;
    }
    ok := FieldsAllSortable(model.model.sortable, Fields(value));
  }

  /**
   * The `foreach` of the closure: each field trimmed, skipped when empty, and
   * false returned at the first one `isSortable` rejects.
   */
  method FieldsAllSortable(sortable: seq<string>, fields: seq<string>) returns (ok: bool)
    ensures ok <==> AllSortable(sortable, Normalize(fields))
  {
    ghost var tokens: seq<string> := [];
    for i := 0 to |fields|
      invariant tokens == Normalize(fields[..i])
      invariant AllSortable(sortable, tokens)
    {
      var field := Trim(fields[i]);
      if !IsEmpty(field) {
        if !IsSortable(sortable, field) {
          NormalizeKeeps(fields, i);
          return false;
        }
        tokens := tokens + [field];
      }
      assert tokens == Normalize(fields[..i + 1]) by {
        assert fields[..i + 1][..i] == fields[..i];
        assert fields[..i + 1][i] == fields[i];
      }
    }
    assert fields[..|fields|] == fields;
    return true;
  }

  /**
   * The closure and the `SortField` rule object reach the same verdict on
   * every value once the rule names a model class.  When the class resolves,
   * the rule object has in addition recorded every rejected token, so the
   * closure fails exactly when that record is not empty.
   */
  method RuleAndClosureAgree(classes: map<string, ModelClass>, attribute: string, value: Value, parameters: seq<string>)
    returns (byClosure: bool, byRule: bool, recorded: seq<string>)
    requires NamesModel(parameters)
    ensures byClosure == byRule
    ensures ResolvesModel(classes, parameters) ==>
      && recorded == InvalidFields(classes[parameters[0]].model.sortable, value)
      && (byClosure <==> recorded == [])
  {
    byClosure := SortFields(classes, attribute, value, parameters);
    var rule := new SortField(parameters[0]);
    byRule := rule.Passes(classes, attribute, value);
    recorded := rule.invalidFields;
    if ResolvesModel(classes, parameters) {
      NoneRejectedIffAllSortable(classes[parameters[0]].model.sortable, Normalize(Fields(value)));
    }
  }

  /** A template with one placeholder and no other ':' gets the placeholder filled. */
  lemma FillPlaceholder(placeholder: string, value: string, p: string, q: string)
    requires |placeholder| > 0
    requires placeholder[0] !in p && placeholder[0] !in q
    ensures StrReplace(placeholder, value, p + placeholder + q) == p + value + q
  {
    assert p + placeholder + q == p + (placeholder + q);
    StrReplaceSkips(placeholder, value, p, placeholder + q);
    assert StrReplace(placeholder, value, placeholder + q) == value + StrReplace(placeholder, value, q) by {
      assert (placeholder + q)[..|placeholder|] == placeholder;
      assert (placeholder + q)[|placeholder|..] == q;
    }
    StrReplaceSkips(placeholder, value, q, "");
    assert q + "" == q;
  }

  /**
   * The replacer that `boot()` registers with `Validator::replacer`: the validator's own message, the rule name
   * and its parameters are ignored; the attribute name is put into the
   * template "The :attribute contains invalid sort fields.".
   */
  function ReplaceMessage(message: string, attribute: string, rule: string, parameters: seq<string>): (m: string)
    ensures m == "The " + attribute + " contains invalid sort fields."
  {
    FillPlaceholder(":attribute", attribute, "The ", " contains invalid sort fields.");
    StrReplace(":attribute", attribute, "The " + ":attribute" + " contains invalid sort fields.")
  }
}

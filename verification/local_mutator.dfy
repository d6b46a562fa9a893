/**
 * The attribute mutator of the older local session service. Add and
 * Delete behave as in the current mutator; Set rejects an attribute that
 * is present (without `addIfNotExists`) instead of one that is absent,
 * and an action of an unknown kind is skipped.
 */
module LocalMutator {
  import opened Types
  import Mutator

  /** One action on the whole map, as the `instanceof` chain does it. The
      named section is created empty when missing, whatever the action.
      Only the named attribute may change, and no action raises an
      unexpected error. */
  function ApplyAction(attrs: Attrs, action: Action): (r: Result<Attrs>)
    ensures r.Ok? ==> Mutator.ChangedOnlyAt(attrs, r.value, action.section, action.attribute)
    ensures r.Err? ==> (|| r.error == AttributeAlreadyExists(action.section, action.attribute)
                        || r.error == AttributeNotExists(action.section, action.attribute))
  {
    var s := SectionOf(attrs, action.section);
    match action
    case Add(section, attribute, value) =>
      if Occupied(s, attribute) then Err(AttributeAlreadyExists(section, attribute))
      else Ok(attrs[section := s[attribute := value]])
    case Set(section, attribute, value, addIfNotExists) =>
      if attribute in s && !addIfNotExists then Err(AttributeNotExists(section, attribute))
      else Ok(attrs[section := s[attribute := value]])
    case Delete(section, attribute) =>
      if Occupied(s, attribute) then Ok(attrs[section := s - {attribute}])
      else Err(AttributeNotExists(section, attribute))
    case Other(section, _) =>
      Ok(attrs[section := s])
  }

  /** A batch in list order; the first failing action is the batch's error.
      No section is ever dropped, and a failure always names an attribute,
      never an unexpected error. */
  function ApplyActions(attrs: Attrs, actions: seq<Action>): (r: Result<Attrs>)
    ensures r.Ok? ==> attrs.Keys <= r.value.Keys
    ensures r.Err? ==> !r.error.UnexpectedError?
    decreases |actions|
  {
    if actions == [] then Ok(attrs)
    else
      var next :- ApplyAction(attrs, actions[0]);
      ApplyActions(next, actions[1..])
  }

  /** The step the batch loop takes at position `i`. */
  lemma StepAt(attrs: Attrs, actions: seq<Action>, i: nat)
    requires i < |actions|
    ensures ApplyAction(attrs, actions[i]).Err? ==>
              ApplyActions(attrs, actions[i..]) == Err(ApplyAction(attrs, actions[i]).error)
    ensures ApplyAction(attrs, actions[i]).Ok? ==>
              ApplyActions(attrs, actions[i..]) == ApplyActions(ApplyAction(attrs, actions[i]).value, actions[i + 1..])
  {
  }

  /** Set in this revision fails exactly when the attribute is present and
      `addIfNotExists` is false; an absent attribute is always written. */
  lemma SetOutcome(attrs: Attrs, sec: string, k: string, v: Value, addIfNotExists: bool)
    ensures ApplyAction(attrs, Set(sec, k, v, addIfNotExists)).Err?
        <==> k in SectionOf(attrs, sec) && !addIfNotExists
    ensures ApplyAction(attrs, Set(sec, k, v, addIfNotExists)).Err?
        ==> ApplyAction(attrs, Set(sec, k, v, addIfNotExists)).error == AttributeNotExists(sec, k)
    ensures ApplyAction(attrs, Set(sec, k, v, addIfNotExists)).Ok?
        ==> AttributeValue(ApplyAction(attrs, Set(sec, k, v, addIfNotExists)).value, sec, k) == v
    ensures k !in SectionOf(attrs, sec) ==> ApplyAction(attrs, Set(sec, k, v, addIfNotExists)).Ok?
    ensures ApplyAction(attrs, Set(sec, k, v, addIfNotExists)).Ok?
        ==> Mutator.ChangedOnlyAt(attrs, ApplyAction(attrs, Set(sec, k, v, addIfNotExists)).value, sec, k)
  {
  }

  /** An action of an unknown kind raises nothing and changes no attribute;
      its only trace is the (possibly new, empty) section it names. */
  lemma OtherActionSkipped(attrs: Attrs, sec: string, k: string)
    ensures ApplyAction(attrs, Other(sec, k)).Ok?
    ensures ApplyAction(attrs, Other(sec, k)).value.Keys == attrs.Keys + {sec}
    ensures forall s, a :: AttributeValue(ApplyAction(attrs, Other(sec, k)).value, s, a) == AttributeValue(attrs, s, a)
    ensures forall s :: AttributeNames(ApplyAction(attrs, Other(sec, k)).value, s) == AttributeNames(attrs, s)
  {
  }

  /** Add, Delete, and Set with `addIfNotExists` behave in this revision
      exactly as in the current one. */
  predicate SameInBothRevisions(action: Action)
  {
    action.Add? || action.Delete? || (action.Set? && action.addIfNotExists)
  }

  /** A batch made only of actions that behave the same in both revisions
      yields the same outcome in both. */
  lemma {:induction false} AgreesWithCurrent(attrs: Attrs, actions: seq<Action>)
    requires forall i :: 0 <= i < |actions| ==> SameInBothRevisions(actions[i])
    ensures ApplyActions(attrs, actions) == Mutator.ApplyActions(attrs, actions)
    decreases |actions|
  {
    if actions != [] {
      assert SameInBothRevisions(actions[0]);
      assert ApplyAction(attrs, actions[0]) == Mutator.ApplyAction(attrs, actions[0]);
      match ApplyAction(attrs, actions[0])
      case Ok(next) =>
        assert forall i :: 0 <= i < |actions[1..]| ==> actions[1..][i] == actions[i + 1];
        AgreesWithCurrent(next, actions[1..]);
      case Err(_) =>
    }
  }

  /** The overwrite of an existing attribute with `addIfNotExists` false,
      which the current revision performs, is rejected here with
      "attribute not exists" although the attribute exists. */
  lemma OverwriteRejected(attrs: Attrs, sec: string, k: string, v: Value)
    requires k in SectionOf(attrs, sec)
    ensures ApplyActions(attrs, [Set(sec, k, v, false)]) == Err(AttributeNotExists(sec, k))
    ensures Mutator.ApplyActions(attrs, [Set(sec, k, v, false)])
         == Ok(attrs[sec := SectionOf(attrs, sec)[k := v]])
  {
  }

  /** The batch loop of this revision. */
  method UpdateAttributes(actions: seq<Action>, base: Attrs) returns (r: Result<Attrs>)
    ensures r == ApplyActions(base, actions)
  {
    var attributes := Mutator.MakeMutableAttributes(base);
    assert attributes == base;
    for i := 0 to |actions|
      invariant ApplyActions(attributes, actions[i..]) == ApplyActions(base, actions)
    {
      var action := actions[i];
      StepAt(attributes, actions, i);
      ghost var before := attributes;
      var section := action.section;
      var attributeName := action.attribute;
      var sectionAttributes := SectionOf(attributes, section);
      attributes := attributes[section := sectionAttributes];
      if action.Add? {
        if Occupied(sectionAttributes, attributeName) {
          return Err(AttributeAlreadyExists(section, attributeName));
        }
        sectionAttributes := sectionAttributes[attributeName := action.value];
      } else if action.Set? {
        if attributeName in sectionAttributes && !action.addIfNotExists {
          return Err(AttributeNotExists(section, attributeName));
        }
        sectionAttributes := sectionAttributes[attributeName := action.value];
      } else if action.Delete? {
        var removed := Occupied(sectionAttributes, attributeName);
        sectionAttributes := sectionAttributes - {attributeName};
        if !removed {
          return Err(AttributeNotExists(section, attributeName));
        }
      }
      Mutator.Rewrite(before, section, SectionOf(before, section), sectionAttributes);
      attributes := attributes[section := sectionAttributes];
    }
    return Ok(attributes);
  }
}

/**
 * The attribute mutator of the current embedded service: a batch of
 * Add/Set/Delete actions applied in order to one private copy of a
 * snapshot's attributes.
 */
module Mutator {
  import opened Types

  /** One action on the section it names (the action switch). Only the
      named attribute may change; Add and Set leave it present and Delete
      leaves it absent; an action of an unknown kind is the only source of
      an unexpected error. */
  function ProceedAction(s: Section, action: Action): (r: Result<Section>)
    ensures r.Ok? ==> r.value - {action.attribute} == s - {action.attribute}
    ensures r.Ok? ==> (action.attribute in r.value <==> !action.Delete?)
    ensures r.Err? ==> (r.error == UnexpectedError(UnsupportedAction) <==> action.Other?)
    ensures action.Other? ==> r == Err(UnexpectedError(UnsupportedAction))
  {
    match action
    case Add(section, attribute, value) =>
      if Occupied(s, attribute) then Err(AttributeAlreadyExists(section, attribute))
      else Ok(s[attribute := value])
    case Set(section, attribute, value, addIfNotExists) =>
      if attribute !in s && !addIfNotExists then Err(AttributeNotExists(section, attribute))
      else Ok(s[attribute := value])
    case Delete(section, attribute) =>
      if Occupied(s, attribute) then Ok(s - {attribute})
      else Err(AttributeNotExists(section, attribute))
    case Other(_, _) =>
      Err(UnexpectedError(UnsupportedAction))
  }

  /** One action on the whole map: the named section is created empty when
      missing, then the action runs on it. */
  function ApplyAction(attrs: Attrs, action: Action): (r: Result<Attrs>)
    ensures r.Ok? ==> ChangedOnlyAt(attrs, r.value, action.section, action.attribute)
    ensures action.Other? ==> r.Err?
  {
    var s :- ProceedAction(SectionOf(attrs, action.section), action);
    Ok(attrs[action.section := s])
  }

  /** A batch in list order; the first failing action is the batch's error.
      No section is ever dropped, and a batch holding an action of an
      unknown kind never succeeds. */
  function ApplyActions(attrs: Attrs, actions: seq<Action>): (r: Result<Attrs>)
    ensures r.Ok? ==> attrs.Keys <= r.value.Keys
    ensures (exists i :: 0 <= i < |actions| && actions[i].Other?) ==> r.Err?
    decreases |actions|
  {
    if actions == [] then Ok(attrs)
    else
      var next :- ApplyAction(attrs, actions[0]);
      assert !actions[0].Other? ==> forall i :: 1 <= i < |actions| ==> actions[1..][i - 1] == actions[i];
      ApplyActions(next, actions[1..])
  }

  /** Writing a section twice leaves the second write. */
  lemma Rewrite(attrs: Attrs, sec: string, first: Section, second: Section)
    ensures attrs[sec := first][sec := second] == attrs[sec := second]
  {
  }

  /** An action on the whole map is its action on the named section, put
      back in place. */
  lemma ApplyViaSection(attrs: Attrs, action: Action)
    ensures ProceedAction(SectionOf(attrs, action.section), action).Err? ==>
              ApplyAction(attrs, action) == Err(ProceedAction(SectionOf(attrs, action.section), action).error)
    ensures ProceedAction(SectionOf(attrs, action.section), action).Ok? ==>
              ApplyAction(attrs, action) == Ok(attrs[action.section := ProceedAction(SectionOf(attrs, action.section), action).value])
  {
  }

  /** The step a batch loop takes at position `i`: the action there runs on
      the map the earlier actions produced, and either fails the batch or
      hands its outcome to the rest. */
  lemma StepAt(attrs: Attrs, actions: seq<Action>, i: nat)
    requires i < |actions|
    ensures ApplyAction(attrs, actions[i]).Err? ==>
              ApplyActions(attrs, actions[i..]) == Err(ApplyAction(attrs, actions[i]).error)
    ensures ApplyAction(attrs, actions[i]).Ok? ==>
              ApplyActions(attrs, actions[i..]) == ApplyActions(ApplyAction(attrs, actions[i]).value, actions[i + 1..])
  {
  }

  /** `b` differs from `a` at most in attribute `k` of section `sec`, and
      holds that section. */
  ghost predicate ChangedOnlyAt(a: Attrs, b: Attrs, sec: string, k: string)
  {
    && b.Keys == a.Keys + {sec}
    && b - {sec} == a - {sec}
    && b[sec] - {k} == SectionOf(a, sec) - {k}
  }

  /** Add fails exactly when the attribute already has a (non-null) value;
      otherwise it stores the value and changes nothing else. */
  lemma AddOutcome(attrs: Attrs, sec: string, k: string, v: Value)
    ensures ApplyAction(attrs, Add(sec, k, v)).Err?
        <==> Occupied(SectionOf(attrs, sec), k)
    ensures ApplyAction(attrs, Add(sec, k, v)).Err?
        ==> ApplyAction(attrs, Add(sec, k, v)).error == AttributeAlreadyExists(sec, k)
    ensures ApplyAction(attrs, Add(sec, k, v)).Ok? ==>
              var r := ApplyAction(attrs, Add(sec, k, v)).value;
              && AttributeValue(r, sec, k) == v
              && AttributeNames(r, sec) == AttributeNames(attrs, sec) + {k}
              && ChangedOnlyAt(attrs, r, sec, k)
  {
  }

  /** Set fails only on an absent attribute without `addIfNotExists`;
      otherwise the attribute ends up holding the new value, overwritten if
      it was present. */
  lemma SetOutcome(attrs: Attrs, sec: string, k: string, v: Value, addIfNotExists: bool)
    ensures ApplyAction(attrs, Set(sec, k, v, addIfNotExists)).Err?
        <==> k !in SectionOf(attrs, sec) && !addIfNotExists
    ensures ApplyAction(attrs, Set(sec, k, v, addIfNotExists)).Err?
        ==> ApplyAction(attrs, Set(sec, k, v, addIfNotExists)).error == AttributeNotExists(sec, k)
    ensures ApplyAction(attrs, Set(sec, k, v, addIfNotExists)).Ok? ==>
              var r := ApplyAction(attrs, Set(sec, k, v, addIfNotExists)).value;
              && AttributeValue(r, sec, k) == v
              && AttributeNames(r, sec) == AttributeNames(attrs, sec) + {k}
              && ChangedOnlyAt(attrs, r, sec, k)
  {
  }

  /** Delete of an attribute with a value removes it; otherwise it fails. */
  lemma DeleteOutcome(attrs: Attrs, sec: string, k: string)
    ensures ApplyAction(attrs, Delete(sec, k)).Ok? <==> Occupied(SectionOf(attrs, sec), k)
    ensures ApplyAction(attrs, Delete(sec, k)).Err?
        ==> ApplyAction(attrs, Delete(sec, k)).error == AttributeNotExists(sec, k)
    ensures ApplyAction(attrs, Delete(sec, k)).Ok? ==>
              var r := ApplyAction(attrs, Delete(sec, k)).value;
              && AttributeValue(r, sec, k) == Null
              && AttributeNames(r, sec) == AttributeNames(attrs, sec) - {k}
              && ChangedOnlyAt(attrs, r, sec, k)
  {
  }

  /** An action of an unknown kind is an unexpected error. */
  lemma OtherActionFails(attrs: Attrs, sec: string, k: string)
    ensures ApplyAction(attrs, Other(sec, k)) == Err(UnexpectedError(UnsupportedAction))
  {
  }

  /** Running two batches one after the other is running their
      concatenation: later actions see the effects of earlier ones, and a
      failure in the first batch is the failure of the whole. */
  lemma {:induction false} ApplyActionsConcat(attrs: Attrs, xs: seq<Action>, ys: seq<Action>)
    ensures ApplyActions(attrs, xs + ys)
         == match ApplyActions(attrs, xs)
            case Ok(mid) => ApplyActions(mid, ys)
            case Err(e) => Err(e)
    decreases |xs|
  {
    if xs == [] {
      assert xs + ys == ys;
    } else {
      assert (xs + ys)[0] == xs[0];
      assert (xs + ys)[1..] == xs[1..] + ys;
      match ApplyAction(attrs, xs[0])
      case Ok(next) => ApplyActionsConcat(next, xs[1..], ys);
      case Err(_) =>
    }
  }

  /** The first failing action decides the batch: whatever follows it, the
      batch fails with that action's error. */
  lemma FirstFailureAborts(attrs: Attrs, done: seq<Action>, mid: Attrs, failing: Action, rest: seq<Action>)
    requires ApplyActions(attrs, done) == Ok(mid)
    requires ApplyAction(mid, failing).Err?
    ensures ApplyActions(attrs, done + [failing] + rest) == Err(ApplyAction(mid, failing).error)
  {
    ApplyActionsConcat(attrs, done, [failing] + rest);
    assert done + [failing] + rest == done + ([failing] + rest);
  }

  /** Sections named by a batch. */
  function NamedSections(actions: seq<Action>): set<string>
  {
    set i | 0 <= i < |actions| :: actions[i].section
  }

  /** Whether some action of a batch names attribute `k` of section `sec`. */
  predicate Targets(actions: seq<Action>, sec: string, k: string)
  {
    exists i :: 0 <= i < |actions| && actions[i].section == sec && actions[i].attribute == k
  }

  /** After a successful batch the map holds exactly the base sections and
      the sections the actions name: missing sections are created, none is
      removed, even when its last attribute is deleted. */
  lemma {:induction false} BatchSections(attrs: Attrs, actions: seq<Action>)
    requires ApplyActions(attrs, actions).Ok?
    ensures ApplyActions(attrs, actions).value.Keys == attrs.Keys + NamedSections(actions)
    decreases |actions|
  {
    if actions != [] {
      var next := ApplyAction(attrs, actions[0]).value;
      BatchSections(next, actions[1..]);
      assert NamedSections(actions) == {actions[0].section} + NamedSections(actions[1..]) by {
        forall s | s in NamedSections(actions)
          ensures s in {actions[0].section} + NamedSections(actions[1..])
        {
          var i :| 0 <= i < |actions| && actions[i].section == s;
          if i > 0 { assert actions[1..][i - 1] == actions[i]; }
        }
        forall s | s in NamedSections(actions[1..])
          ensures s in NamedSections(actions)
        {
          var i :| 0 <= i < |actions[1..]| && actions[1..][i].section == s;
          assert actions[i + 1] == actions[1..][i];
        }
      }
    }
  }

  /** An attribute no action of a successful batch names reads the same
      before and after it. */
  lemma {:induction false} UntargetedUnchanged(attrs: Attrs, actions: seq<Action>, sec: string, k: string)
    requires ApplyActions(attrs, actions).Ok?
    requires !Targets(actions, sec, k)
    ensures k in AttributeNames(ApplyActions(attrs, actions).value, sec) <==> k in AttributeNames(attrs, sec)
    ensures AttributeValue(ApplyActions(attrs, actions).value, sec, k) == AttributeValue(attrs, sec, k)
    decreases |actions|
  {
    if actions != [] {
      var next := ApplyAction(attrs, actions[0]).value;
      forall i | 0 <= i < |actions[1..]|
        ensures actions[1..][i].section != sec || actions[1..][i].attribute != k
      {
        assert actions[1..][i] == actions[i + 1];
      }
      assert actions[0].section != sec || actions[0].attribute != k;
      UntargetedUnchanged(next, actions[1..], sec, k);
    }
  }

  /** Within one batch the second Add of an attribute sees the first and
      fails. */
  lemma SecondAddSeesFirst(attrs: Attrs, sec: string, k: string, v: Value, w: Value)
    requires !Occupied(SectionOf(attrs, sec), k) && v != Null
    ensures ApplyActions(attrs, [Add(sec, k, v), Add(sec, k, w)]) == Err(AttributeAlreadyExists(sec, k))
  {
    var next := attrs[sec := SectionOf(attrs, sec)[k := v]];
    assert ApplyAction(attrs, Add(sec, k, v)) == Ok(next);
    assert [Add(sec, k, v), Add(sec, k, w)][1..] == [Add(sec, k, w)];
  }

  /** Add followed by Delete of the same attribute succeeds, leaves the
      attribute absent and the section in place. */
  lemma AddThenDelete(attrs: Attrs, sec: string, k: string, v: Value)
    requires !Occupied(SectionOf(attrs, sec), k) && v != Null
    ensures ApplyActions(attrs, [Add(sec, k, v), Delete(sec, k)])
         == Ok(attrs[sec := SectionOf(attrs, sec) - {k}])
  {
    var next := attrs[sec := SectionOf(attrs, sec)[k := v]];
    assert ApplyAction(attrs, Add(sec, k, v)) == Ok(next);
    assert [Add(sec, k, v), Delete(sec, k)][1..] == [Delete(sec, k)];
    var last := next[sec := SectionOf(next, sec) - {k}];
    assert ApplyAction(next, Delete(sec, k)) == Ok(last);
    assert ApplyActions(last, []) == Ok(last);
    assert [Delete(sec, k)][1..] == [];
    assert SectionOf(attrs, sec)[k := v] - {k} == SectionOf(attrs, sec) - {k};
    assert last == attrs[sec := SectionOf(attrs, sec) - {k}];
  }

  /** The private copy of the base attributes: a new map holding a copy of
      every section. */
  method MakeMutableAttributes(source: Attrs) returns (copy: Attrs)
    ensures copy.Keys == source.Keys
    ensures forall s :: s in source ==> copy[s] == source[s]
  {
    copy := map[];
    var pending := source.Keys;
    while pending != {}
      invariant pending <= source.Keys
      invariant copy.Keys == source.Keys - pending
      invariant forall s :: s in copy ==> copy[s] == source[s]
      decreases pending
    {
      var sectionId :| sectionId in pending;
      var sectionData := source[sectionId];
      copy := copy[sectionId := map k | k in sectionData :: sectionData[k]];
      pending := pending - {sectionId};
    }
  }

  /** The batch loop: every action runs on the copy in list order, the
      named section is created when missing, and the first failure ends the
      batch. */
  method UpdateAttributes(actions: seq<Action>, base: Attrs) returns (r: Result<Attrs>)
    ensures r == ApplyActions(base, actions)
  {
    var attributes := MakeMutableAttributes(base);
    assert attributes == base;
    var i := 0;
    while i < |actions|
      invariant 0 <= i <= |actions|
      invariant ApplyActions(attributes, actions[i..]) == ApplyActions(base, actions)
    {
      var action := actions[i];
      StepAt(attributes, actions, i);
      ghost var before := attributes;
      var sectionAttributes := SectionOf(attributes, action.section);
      attributes := attributes[action.section := sectionAttributes];
      var proceeded := ProceedAction(sectionAttributes, action);
      if proceeded.Err? {
        return Err(proceeded.error);
      }
      Rewrite(before, action.section, sectionAttributes, proceeded.value);
      attributes := attributes[action.section := proceeded.value];
      ApplyViaSection(before, action);
      i := i + 1;
    }
    assert actions[i..] == [];
    return Ok(attributes);
  }
}

/**
 * The attribute batch loop of the earlier embedded service, where the
 * Add/Set/Delete switch is written inside the loop instead of in a
 * helper. Its meaning is the current mutator's.
 */
module InlineMutator {
  import opened Types
  import Mutator

  /** The batch loop with the switch inlined: it computes exactly what the
      current mutator computes. */
  method UpdateAttributes(actions: seq<Action>, base: Attrs) returns (r: Result<Attrs>)
    ensures r == Mutator.ApplyActions(base, actions)
  {
    var attributes := Mutator.MakeMutableAttributes(base);
    assert attributes == base;
    for i := 0 to |actions|
      invariant Mutator.ApplyActions(attributes, actions[i..]) == Mutator.ApplyActions(base, actions)
    {
      var action := actions[i];
      Mutator.StepAt(attributes, actions, i);
      ghost var before := attributes;
      var section := action.section;
      var attributeName := action.attribute;
      var sectionAttributes := SectionOf(attributes, section);
      Mutator.ApplyViaSection(before, action);
      attributes := attributes[section := sectionAttributes];
      match action {
        case Add(_, _, attributeValue) =>
          if Occupied(sectionAttributes, attributeName) {
            return Err(AttributeAlreadyExists(section, attributeName));
          }
          sectionAttributes := sectionAttributes[attributeName := attributeValue];
        case Set(_, _, attributeValue, addIfNotExists) =>
          if attributeName !in sectionAttributes && !addIfNotExists {
            return Err(AttributeNotExists(section, attributeName));
          }
          sectionAttributes := sectionAttributes[attributeName := attributeValue];
        case Delete(_, _) =>
          if !Occupied(sectionAttributes, attributeName) {
            return Err(AttributeNotExists(section, attributeName));
          }
          sectionAttributes := sectionAttributes - {attributeName};
        case Other(_, _) =>
          return Err(UnexpectedError(UnsupportedAction));
      }
      Mutator.Rewrite(before, section, SectionOf(before, section), sectionAttributes);
      attributes := attributes[section := sectionAttributes];
    }
    return Ok(attributes);
  }
}

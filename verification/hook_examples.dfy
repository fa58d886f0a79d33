/**
  The event names exercised by test/hooks_transform.spec.js, and a few more
  that pin down the split rule. Each lemma takes its event names as
  parameters fixed by its `requires`.
 */
module HookExamples {
  import opened Case
  import opened Split
  import opened Middleware

  /** `preSave`, `postSave` and `preFind` separate into their two halves. */
  lemma SeparatesNativeNames(preSave: string, postSave: string, preFind: string)
    requires preSave == "preSave" && postSave == "postSave" && preFind == "preFind"
    ensures FormatToMongooseMiddleware(preSave) == Ok(Hook("pre", "save"))
    ensures FormatToMongooseMiddleware(postSave) == Ok(Hook("post", "save"))
    ensures FormatToMongooseMiddleware(preFind) == Ok(Hook("pre", "find"))
  {
    assert preSave == "pre" + Capitalize("save");
    assert postSave == "post" + Capitalize("save");
    assert preFind == "pre" + Capitalize("find");
    NativeNamesPassThrough("pre", "save");
    NativeNamesPassThrough("post", "save");
    NativeNamesPassThrough("pre", "find");
  }

  /** `beforeSave` and `preSave` are the same pair; `afterSave` is `post`/`save`. */
  lemma TransformsLucidNames(beforeSave: string, preSave: string, afterSave: string)
    requires beforeSave == "beforeSave" && preSave == "preSave" && afterSave == "afterSave"
    ensures FormatToMongooseMiddleware(beforeSave) == FormatToMongooseMiddleware(preSave)
    ensures FormatToMongooseMiddleware(beforeSave) == Ok(Hook("pre", "save"))
    ensures FormatToMongooseMiddleware(afterSave) == Ok(Hook("post", "save"))
  {
    assert preSave == "pre" + Capitalize("save");
    assert beforeSave == "before" + Capitalize("save");
    assert afterSave == "after" + Capitalize("save");
    NativeNamesPassThrough("pre", "save");
    LucidInstructionSynonyms("save");
  }

  /** `preDelete` is the Mongoose `pre`/`remove` pair. */
  lemma TransformsLucidDelete(preDelete: string)
    requires preDelete == "preDelete"
    ensures FormatToMongooseMiddleware(preDelete) == Ok(Hook("pre", "remove"))
  {
    assert preDelete == "pre" + Capitalize("delete");
    assert NoCapsAfterHead("pre");
    DeconstructSpelled("pre", "delete");
    assert Translate(LucidInstructions, "pre") == "pre";
    assert Translate(LucidCommands, "delete") == "remove";
    assert IsValidInstruction("pre") && IsValidCommand("remove");
  }

  /** Inner capitals of a multi-word command are kept. */
  lemma KeepsInnerCapitals(preFindOneAndUpdate: string, preInsertMany: string)
    requires preFindOneAndUpdate == "preFindOneAndUpdate" && preInsertMany == "preInsertMany"
    ensures FormatToMongooseMiddleware(preFindOneAndUpdate) == Ok(Hook("pre", "findOneAndUpdate"))
    ensures FormatToMongooseMiddleware(preInsertMany) == Ok(Hook("pre", "insertMany"))
  {
    assert preFindOneAndUpdate == "pre" + Capitalize("findOneAndUpdate");
    assert preInsertMany == "pre" + Capitalize("insertMany");
    NativeNamesPassThrough("pre", "findOneAndUpdate");
    NativeNamesPassThrough("pre", "insertMany");
  }

  /** `preSaved` fails on its command `saved`, with the message the test expects. */
  lemma RejectsBadCommand(preSaved: string)
    requires preSaved == "preSaved"
    ensures FormatToMongooseMiddleware(preSaved) == Err(InvalidCommand("saved", preSaved))
    ensures Message(FormatToMongooseMiddleware(preSaved).error) == "saved" + MessageMiddle + preSaved + MessageTail
  {
    assert preSaved == "pre" + Capitalize("saved");
    assert NoCapsAfterHead("pre");
    DeconstructSpelled("pre", "saved");
    assert Translate(LucidInstructions, "pre") == "pre";
    assert Translate(LucidCommands, "saved") == "saved";
    assert !IsValidCommand("saved");
  }

  /**
    `presSaved` fails on its instruction `pres`, with the message the test
    expects, although its command is invalid too.
   */
  lemma RejectsBadInstructionFirst(presSaved: string)
    requires presSaved == "presSaved"
    ensures FormatToMongooseMiddleware(presSaved) == Err(InvalidInstruction("pres", presSaved))
    ensures Message(FormatToMongooseMiddleware(presSaved).error) == "pres" + MessageMiddle + presSaved + MessageTail
    ensures !IsValidCommand(DeconstructEvent(presSaved).command)
  {
    assert presSaved == "pres" + Capitalize("saved");
    assert NoCapsAfterHead("pres");
    DeconstructSpelled("pres", "saved");
    assert Translate(LucidInstructions, "pres") == "pres";
    assert Translate(LucidCommands, "saved") == "saved";
    assert !IsValidInstruction("pres");
    assert !IsValidCommand("saved");
  }

  /** `pre` has an empty command, and the empty event an empty instruction. */
  lemma RejectsEventWithoutCommand(pre: string, empty: string)
    requires pre == "pre" && empty == ""
    ensures FormatToMongooseMiddleware(pre) == Err(InvalidCommand("", pre))
    ensures FormatToMongooseMiddleware(empty) == Err(InvalidInstruction("", empty))
  {
    assert NoCapsAfterHead(pre);
    NoCapitalEventFails(pre);
    assert Translate(LucidInstructions, pre) == "pre";
    NoCapitalEventFails(empty);
    assert Translate(LucidInstructions, empty) == "";
    assert !IsValidInstruction("");
  }

  /** A leading capital is never a split point: `PreSave` has the instruction `Pre`. */
  lemma LeadingCapitalIsNoBoundary(preSave: string)
    requires preSave == "PreSave"
    ensures SplitOnCaps(preSave) == ["Pre", "Save"]
    ensures FormatToMongooseMiddleware(preSave) == Err(InvalidInstruction("Pre", preSave))
  {
    var ps := ["Pre", "Save"];
    assert NoCapsAfterHead("Pre") && IsCapWord("Save");
    assert Concat(ps) == "Pre" + ("Save" + Concat([]));
    assert preSave == "Pre" + "Save";
    SplitOnCapsUnique(preSave, ps);
    assert preSave == "Pre" + Capitalize("save");
    DeconstructSpelled("Pre", "save");
    assert Translate(LucidInstructions, "Pre") == "Pre";
    assert !IsValidInstruction("Pre");
  }
}

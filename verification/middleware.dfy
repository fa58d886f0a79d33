/**
  The hook event-name translator of src/utils.js: a camel-case lifecycle
  event name such as `beforeSave` or `preFindOne` becomes a Mongoose
  middleware pair (instruction, command), with the Lucid synonyms
  `before`/`after`/`delete` mapped to `pre`/`post`/`remove`, and is then
  checked against the fixed Mongoose vocabularies.
 */
module Middleware {
  import opened Case
  import opened Split

  /** `MONGOOSE_MIDDLEWARE_ACTIONS`: the valid instructions. */
  const Instructions: seq<string> := ["pre", "post"]

  /** `MONGOOSE_MIDDLEWARE`: the valid commands. */
  const Commands: seq<string> := [
    "init", "validate", "save", "remove",
    "find", "update", "findOne", "findOneAndRemove",
    "findOneAndUpdate", "aggregate", "insertMany"
  ]

  /** `LUCID_INSTRUCTIONS_TO_MONGOOSE`. */
  const LucidInstructions: map<string, string> := map["before" := "pre", "after" := "post"]

  /** `LUCID_COMMANDS_TO_MONGOOSE`. */
  const LucidCommands: map<string, string> := map["delete" := "remove"]

  /** The fixed text between the bad token and the event in an error message. */
  const MessageMiddle: string := " is not a valid mongoose command when using "

  /** The fixed text after the event: a pointer to the middleware documentation. */
  const MessageTail: string := ". Check the middleware docs: http://mongoosejs.com/docs/middleware.html"

  /**
    `isValidInstruction`: membership in `Instructions`, which is exactly `pre`
    and `post`; neither is a key of the instruction synonyms, so a valid
    instruction is never renamed.
   */
  function IsValidInstruction(instruction: string): (b: bool)
    ensures b <==> instruction == "pre" || instruction == "post"
    ensures b ==> Translate(LucidInstructions, instruction) == instruction
  {
    instruction in Instructions
  }

  /**
    `isValidCommand`: membership in `Commands`. Every valid command starts
    with a small letter, so it can follow a capital boundary, and none is a
    key of the command synonyms, so a valid command is never renamed.
   */
  function IsValidCommand(command: string): (b: bool)
    ensures b ==> |command| > 0 && IsLower(command[0])
    ensures b ==> Translate(LucidCommands, command) == command
    ensures command == "delete" || command == "" ==> !b
  {
    command in Commands
  }

  /** The `{ instruction, command }` object the translator returns. */
  datatype Hook = Hook(instruction: string, command: string)

  /** The two errors `formatToMongooseMiddleware` throws; each names the bad token and the event. */
  datatype TranslationError =
    | InvalidInstruction(token: string, event: string)
    | InvalidCommand(token: string, event: string)

  /**
    The thrown `Error`'s message; both kinds say "command", as the source
    does. It starts with the offending token, names the original event
    after the fixed middle text, and ends with the documentation pointer.
   */
  function Message(error: TranslationError): (m: string)
    ensures |m| == |error.token| + |MessageMiddle| + |error.event| + |MessageTail|
    ensures m[..|error.token|] == error.token
    ensures m[|error.token|..][..|MessageMiddle|] == MessageMiddle
    ensures m[|error.token| + |MessageMiddle|..][..|error.event|] == error.event
    ensures m[|m| - |MessageTail|..] == MessageTail
  {
    var m := error.token + MessageMiddle + error.event + MessageTail;
    var n := |error.token| + |MessageMiddle|;
    assert m == error.token + (MessageMiddle + (error.event + MessageTail));
    assert m[|error.token|..] == MessageMiddle + (error.event + MessageTail);
    assert m[n..] == error.event + MessageTail;
    m
  }

  datatype Result = Ok(value: Hook) | Err(error: TranslationError)

  /** A synonym table applied once, on an exact own-key match only. */
  function Translate(table: map<string, string>, word: string): (r: string)
    ensures word !in table ==> r == word
    ensures word in table ==> r in table.Values && r == table[word]
  {
    if word in table then table[word] else word
  }

  /** Every word that `Translate(table, _)` sends to `target`. */
  function Preimage(table: map<string, string>, target: string): set<string> {
    (if target in table then {} else {target}) + (set k | k in table && table[k] == target)
  }

  /** `Preimage` is exactly the set of words translated to the target. */
  lemma TranslatePreimage(table: map<string, string>, word: string, target: string)
    ensures Translate(table, word) == target <==> word in Preimage(table, target)
  {
  }

  /**
    Each synonym table is applied once, and once is enough: no value of
    either table is itself a key, so translating again changes nothing.
   */
  lemma SynonymsSettleInOneStep(w: string)
    ensures Translate(LucidInstructions, Translate(LucidInstructions, w)) == Translate(LucidInstructions, w)
    ensures Translate(LucidCommands, Translate(LucidCommands, w)) == Translate(LucidCommands, w)
  {
  }

  /**
    `deconstructEvent`: the head piece of the split is the raw instruction,
    the remaining pieces joined and `firstLowerCase`d are the raw command,
    and each goes through its synonym table once.
    Stated without the split: the raw instruction is the text before the
    first capital after index 0, the raw command is the text from it on
    with that capital lower-cased.
   */
  function DeconstructEvent(event: string): (r: Hook)
    ensures var k := FirstCap(event);
      && r.instruction == Translate(LucidInstructions, event[..k])
      && r.command == Translate(LucidCommands, FirstLowerCase(event[k..]))
  {
    SplitOnCapsHead(event);
    var pieces := SplitOnCaps(event);
    var instruction := pieces[0];
    var command := FirstLowerCase(Concat(pieces[1..]));
    Hook(Translate(LucidInstructions, instruction), Translate(LucidCommands, command))
  }

  /**
    `formatToMongooseMiddleware`: succeeds exactly when both tokens are in
    their vocabularies; an invalid instruction is reported first, even when
    the command is invalid too; every error names the original event.
   */
  function FormatToMongooseMiddleware(event: string): (r: Result)
    ensures r.Ok? <==>
      IsValidInstruction(DeconstructEvent(event).instruction) && IsValidCommand(DeconstructEvent(event).command)
    ensures r.Ok? ==> r.value == DeconstructEvent(event)
    ensures r.Ok? ==> r.value.instruction in Instructions && r.value.command in Commands
    ensures !IsValidInstruction(DeconstructEvent(event).instruction) ==>
      r == Err(InvalidInstruction(DeconstructEvent(event).instruction, event))
    ensures IsValidInstruction(DeconstructEvent(event).instruction) && !IsValidCommand(DeconstructEvent(event).command) ==>
      r == Err(InvalidCommand(DeconstructEvent(event).command, event))
  {
    var hook := DeconstructEvent(event);
    if !IsValidInstruction(hook.instruction) then
      Err(InvalidInstruction(hook.instruction, event))
    else if !IsValidCommand(hook.command) then
      Err(InvalidCommand(hook.command, event))
    else
      Ok(hook)
  }

  /** `event` is some spelling of `hook`: an instruction word followed by a capitalised command word. */
  ghost predicate SpelledAs(event: string, hook: Hook) {
    exists w, x :: w in Preimage(LucidInstructions, hook.instruction) && x in Preimage(LucidCommands, hook.command)
      && event == w + Capitalize(x)
  }

  /**
    Composition: an instruction word with no capital after its first
    character, followed by a capitalised command word that starts with a
    small letter, deconstructs into the two words, translated.
   */
  lemma DeconstructSpelled(w: string, x: string)
    requires |w| > 0 && NoCapsAfterHead(w)
    requires |x| > 0 && IsLower(x[0])
    ensures DeconstructEvent(w + Capitalize(x)) ==
      Hook(Translate(LucidInstructions, w), Translate(LucidCommands, x))
  {
    var e := w + Capitalize(x);
    FirstLowerCaseCapitalize(x);
    forall j | 1 <= j < |w|
      ensures !IsUpper(e[j])
    {
      assert e[j] == w[j];
    }
    assert e[|w|] == Capitalize(x)[0];
    FirstCapUnique(e, |w|);
    assert e[..|w|] == w;
    assert e[|w|..] == Capitalize(x);
  }

  /** Instruction words that translate to a valid instruction are all small letters. */
  lemma InstructionSpellingsAreLower(instruction: string, w: string)
    requires IsValidInstruction(instruction)
    requires w in Preimage(LucidInstructions, instruction)
    ensures |w| > 0 && NoCapsAfterHead(w)
    ensures w in ["pre", "post", "before", "after"]
  {
    assert w == "pre" || w == "post" || w == "before" || w == "after";
  }

  /** Command words that translate to a valid command all start with a small letter. */
  lemma CommandSpellingsStartLower(command: string, x: string)
    requires IsValidCommand(command)
    requires x in Preimage(LucidCommands, command)
    ensures |x| > 0 && IsLower(x[0])
  {
    assert x in Commands || x == "delete";
  }

  /** The empty word is no command, whatever the synonym table does. */
  lemma EmptyIsNoCommand()
    ensures Translate(LucidCommands, "") == ""
    ensures !IsValidCommand("")
  {
  }

  /** A successful translation is the deconstructed pair, and that pair is valid. */
  lemma FormatOk(event: string, hook: Hook)
    requires FormatToMongooseMiddleware(event) == Ok(hook)
    ensures hook == DeconstructEvent(event)
    ensures IsValidInstruction(hook.instruction) && IsValidCommand(hook.command)
  {
  }

  /** An event is its instruction text followed by its capitalised raw command. */
  lemma RespellAtCap(event: string, k: nat)
    requires k < |event| && IsUpper(event[k])
    ensures event == event[..k] + Capitalize(FirstLowerCase(event[k..]))
  {
    CapitalizeFirstLowerCase(event[k..]);
    assert event == event[..k] + event[k..];
  }

  /** Soundness: every successful translation comes from a spelling of its result. */
  lemma FormatSound(event: string, hook: Hook)
    requires FormatToMongooseMiddleware(event) == Ok(hook)
    ensures IsValidInstruction(hook.instruction) && IsValidCommand(hook.command)
    ensures SpelledAs(event, hook)
  {
    FormatOk(event, hook);
    var k := FirstCap(event);
    var w := event[..k];
    var x := FirstLowerCase(event[k..]);
    TranslatePreimage(LucidInstructions, w, hook.instruction);
    TranslatePreimage(LucidCommands, x, hook.command);
    EmptyIsNoCommand();
    assert x != "";
    RespellAtCap(event, k);
    assert w in Preimage(LucidInstructions, hook.instruction) && x in Preimage(LucidCommands, hook.command)
      && event == w + Capitalize(x);
  }

  /** Completeness: every spelling of a valid pair translates to that pair. */
  lemma FormatComplete(event: string, hook: Hook, w: string, x: string)
    requires IsValidInstruction(hook.instruction) && IsValidCommand(hook.command)
    requires w in Preimage(LucidInstructions, hook.instruction)
    requires x in Preimage(LucidCommands, hook.command)
    requires event == w + Capitalize(x)
    ensures FormatToMongooseMiddleware(event) == Ok(hook)
  {
    InstructionSpellingsAreLower(hook.instruction, w);
    CommandSpellingsStartLower(hook.command, x);
    DeconstructSpelled(w, x);
    TranslatePreimage(LucidInstructions, w, hook.instruction);
    TranslatePreimage(LucidCommands, x, hook.command);
  }

  /**
    The translator accepts exactly the spellings of valid pairs: `event`
    translates to `hook` if and only if `hook` is a valid Mongoose pair and
    `event` is one of its native or Lucid spellings.
   */
  lemma FormatAcceptsExactly(event: string, hook: Hook)
    ensures FormatToMongooseMiddleware(event) == Ok(hook) <==>
      IsValidInstruction(hook.instruction) && IsValidCommand(hook.command) && SpelledAs(event, hook)
  {
    if FormatToMongooseMiddleware(event) == Ok(hook) {
      FormatSound(event, hook);
    }
    if IsValidInstruction(hook.instruction) && IsValidCommand(hook.command) && SpelledAs(event, hook) {
      var w, x :| w in Preimage(LucidInstructions, hook.instruction) && x in Preimage(LucidCommands, hook.command)
        && event == w + Capitalize(x);
      FormatComplete(event, hook, w, x);
    }
  }

  /** Plain Mongoose names pass through unchanged, for every valid pair. */
  lemma NativeNamesPassThrough(instruction: string, command: string)
    requires IsValidInstruction(instruction) && IsValidCommand(command)
    ensures FormatToMongooseMiddleware(instruction + Capitalize(command)) == Ok(Hook(instruction, command))
  {
    assert instruction in Preimage(LucidInstructions, instruction);
    assert command in Preimage(LucidCommands, command);
    FormatAcceptsExactly(instruction + Capitalize(command), Hook(instruction, command));
  }

  /** `before`/`after` are synonyms of `pre`/`post` in front of every valid command. */
  lemma LucidInstructionSynonyms(command: string)
    requires IsValidCommand(command)
    ensures FormatToMongooseMiddleware("before" + Capitalize(command)) == Ok(Hook("pre", command))
    ensures FormatToMongooseMiddleware("after" + Capitalize(command)) == Ok(Hook("post", command))
  {
    assert "before" in Preimage(LucidInstructions, "pre");
    assert "after" in Preimage(LucidInstructions, "post");
    assert command in Preimage(LucidCommands, command);
    FormatAcceptsExactly("before" + Capitalize(command), Hook("pre", command));
    FormatAcceptsExactly("after" + Capitalize(command), Hook("post", command));
  }

  /**
    `Delete` is a synonym of `Remove` after every instruction word: both
    events deconstruct to the same pair, and when the word's instruction is
    valid both translate successfully to it with the command `remove`.
   */
  lemma LucidDeleteSynonym(w: string)
    requires |w| > 0 && NoCapsAfterHead(w)
    ensures DeconstructEvent(w + "Delete") == DeconstructEvent(w + "Remove")
    ensures IsValidInstruction(Translate(LucidInstructions, w)) ==>
      && FormatToMongooseMiddleware(w + "Delete") == Ok(Hook(Translate(LucidInstructions, w), "remove"))
      && FormatToMongooseMiddleware(w + "Remove") == Ok(Hook(Translate(LucidInstructions, w), "remove"))
  {
    assert w + "Delete" == w + Capitalize("delete");
    assert w + "Remove" == w + Capitalize("remove");
    DeconstructSpelled(w, "delete");
    DeconstructSpelled(w, "remove");
    assert Translate(LucidCommands, "delete") == "remove";
    assert Translate(LucidCommands, "remove") == "remove";
    assert IsValidCommand("remove");
  }

  /**
    An event with no capital after its first character has an empty command:
    it always fails, with an instruction error when its instruction is bad
    and otherwise with a command error naming the empty token.
   */
  lemma NoCapitalEventFails(event: string)
    requires NoCapsAfterHead(event)
    ensures DeconstructEvent(event).command == ""
    ensures FormatToMongooseMiddleware(event).Err?
    ensures IsValidInstruction(Translate(LucidInstructions, event)) ==>
      FormatToMongooseMiddleware(event) == Err(InvalidCommand("", event))
  {
    FirstCapUnique(event, |event|);
    assert event[..|event|] == event;
    assert FirstLowerCase(event[|event|..]) == "";
  }
}

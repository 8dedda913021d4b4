/**
 * The four node kinds of the editor and what each node component declares
 * from its id and data: its connection handles, and the initial values of
 * its fields.
 */
module NodePorts {
  import opened Wrappers
  import opened Seqs
  import opened TemplateVariables

  // ---------------------------------------------------------------------------
  // Kinds

  datatype NodeKind = CustomInput | Llm | CustomOutput | Text

  /** The `type` tag a node of each kind carries. */
  function KindTag(kind: NodeKind): string
  {
    match kind
    case CustomInput => "customInput"
    case Llm => "llm"
    case CustomOutput => "customOutput"
    case Text => "text"
  }

  /** The `nodeTypes` lookup from a tag to the component that renders it. */
  function KindOfTag(tag: string): Option<NodeKind>
  {
    if tag == "customInput" then Some(CustomInput)
    else if tag == "llm" then Some(Llm)
    else if tag == "customOutput" then Some(CustomOutput)
    else if tag == "text" then Some(Text)
    else None
  }

  /** The toolbar buttons, in display order. */
  const ToolbarKinds: seq<NodeKind> := [CustomInput, Llm, CustomOutput, Text]

  /** Every tag the toolbar hands out is rendered by the component of its kind, and only tags of kinds are known. */
  lemma KindTagRoundTrip(kind: NodeKind, tag: string)
    ensures KindOfTag(KindTag(kind)) == Some(kind)
    ensures KindOfTag(tag) == Some(kind) ==> KindTag(kind) == tag
  {
  }

  /** The toolbar offers each kind once. */
  lemma ToolbarCoversKinds(kind: NodeKind)
    ensures kind in ToolbarKinds && NoDup(ToolbarKinds)
  {
  }

  // ---------------------------------------------------------------------------
  // Handles

  datatype Side = Source | Target

  datatype Handle = Handle(side: Side, id: string)

  /** The ids of the handles on one side, in the order they are rendered. */
  function Ids(handles: seq<Handle>, side: Side): (ids: seq<string>)
    ensures |ids| <= |handles|
    ensures forall x :: x in ids <==> Handle(side, x) in handles
  {
    if handles == [] then []
    else
      var rest := Ids(handles[1..], side);
      assert forall h :: h in handles <==> h == handles[0] || h in handles[1..];
      if handles[0].side == side then [handles[0].id] + rest else rest
  }

  /** The text node's target handles: `var-<name>` for each variable. */
  function VariableHandles(vars: seq<string>): (hs: seq<Handle>)
    ensures |hs| == |vars|
    ensures forall k :: 0 <= k < |vars| ==> hs[k] == Handle(Target, "var-" + vars[k])
  {
    if vars == [] then [] else [Handle(Target, "var-" + vars[0])] + VariableHandles(vars[1..])
  }

  /** The handles a node of `kind` with id `id` renders; `text` is a text node's current text. */
  function Ports(kind: NodeKind, id: string, text: string): seq<Handle>
  {
    match kind
    case CustomInput => [Handle(Source, id + "-output")]
    case Llm => [Handle(Target, id + "-system"), Handle(Target, id + "-prompt"), Handle(Source, id + "-response")]
    case CustomOutput => [Handle(Target, id + "-input")]
    case Text => VariableHandles(Extract(text)) + [Handle(Source, id + "-output")]
  }

  /** An input node has one handle, a source. */
  lemma InputPorts(id: string, text: string)
    ensures Ids(Ports(CustomInput, id, text), Source) == [id + "-output"]
    ensures Ids(Ports(CustomInput, id, text), Target) == []
  {
  }

  /** An output node has one handle, a target. */
  lemma OutputPorts(id: string, text: string)
    ensures Ids(Ports(CustomOutput, id, text), Target) == [id + "-input"]
    ensures Ids(Ports(CustomOutput, id, text), Source) == []
  {
  }

  /** An LLM node has two targets and one source, and no two of its handles share an id. */
  lemma LlmPorts(id: string, text: string)
    ensures Ids(Ports(Llm, id, text), Target) == [id + "-system", id + "-prompt"]
    ensures Ids(Ports(Llm, id, text), Source) == [id + "-response"]
    ensures NoDup([id + "-system", id + "-prompt", id + "-response"])
  {
    var hs := Ports(Llm, id, text);
    IdsAppend(hs[..2], hs[2..], Target);
    IdsAppend(hs[..2], hs[2..], Source);
    assert hs == hs[..2] + hs[2..];
    var n := |id|;
    assert (id + "-system")[n + 1] == 's';
    assert (id + "-prompt")[n + 1] == 'p';
    assert |id + "-response"| == n + 9;
  }

  lemma {:induction false} VariableHandlesTargets(vars: seq<string>)
    ensures Ids(VariableHandles(vars), Target) == seq(|vars|, k requires 0 <= k < |vars| => "var-" + vars[k])
    ensures Ids(VariableHandles(vars), Source) == []
  {
    if vars != [] {
      VariableHandlesTargets(vars[1..]);
      assert VariableHandles(vars)[1..] == VariableHandles(vars[1..]);
    }
  }

  lemma {:induction false} IdsAppend(a: seq<Handle>, b: seq<Handle>, side: Side)
    ensures Ids(a + b, side) == Ids(a, side) + Ids(b, side)
  {
    if a != [] {
      assert (a + b)[0] == a[0];
      assert (a + b)[1..] == a[1..] + b;
      IdsAppend(a[1..], b, side);
    } else {
      assert a + b == b;
    }
  }

  /** The ids `var-<name>` of a list of distinct names are distinct and name exactly those names. */
  lemma VariableIds(vars: seq<string>, targets: seq<string>)
    requires NoDup(vars)
    requires targets == seq(|vars|, k requires 0 <= k < |vars| => "var-" + vars[k])
    ensures NoDup(targets)
    ensures forall name :: "var-" + name in targets <==> name in vars
  {
    forall i, j | 0 <= i < j < |targets|
      ensures targets[i] != targets[j]
    {
      assert targets[i][4..] == vars[i] && targets[j][4..] == vars[j];
    }
    forall name
      ensures "var-" + name in targets <==> name in vars
    {
      if "var-" + name in targets {
        var k :| 0 <= k < |targets| && targets[k] == "var-" + name;
        assert targets[k][4..] == name == vars[k];
      }
      if name in vars {
        var k :| 0 <= k < |vars| && vars[k] == name;
        assert targets[k] == "var-" + name;
      }
    }
  }

  /**
   * A text node has one target handle per variable, `var-<name>`, with no two
   * alike, and exactly one source handle whatever the text.
   */
  lemma TextPorts(id: string, text: string)
    ensures Ids(Ports(Text, id, text), Source) == [id + "-output"]
    ensures |Ids(Ports(Text, id, text), Target)| == |Extract(text)|
    ensures forall name :: "var-" + name in Ids(Ports(Text, id, text), Target) <==> name in Extract(text)
    ensures NoDup(Ids(Ports(Text, id, text), Target))
  {
    var vars := Extract(text);
    var hs := VariableHandles(vars);
    var out := [Handle(Source, id + "-output")];
    assert Ports(Text, id, text) == hs + out;
    VariableHandlesTargets(vars);
    IdsAppend(hs, out, Source);
    IdsAppend(hs, out, Target);
    ExtractDistinct(text);
    VariableIds(vars, Ids(hs, Target));
  }

  /**
   * The output handle of a text node differs from every variable handle,
   * unless the node id is `var` and the text uses a variable named `output`.
   */
  lemma TextOutputApart(id: string, text: string, name: string)
    requires name in Extract(text)
    ensures "var-" + name == id + "-output" <==> id == "var" && name == "output"
  {
    if "var-" + name == id + "-output" {
      var s := id + "-output";
      var p := |id|;
      assert s[p] == '-';
      if p >= 4 {
        ExtractIdentifiers(text);
      } else {
        assert "var-"[p] == '-';
        assert id == s[..3] == "var";
        assert name == s[4..];
      }
    }
  }

  // ---------------------------------------------------------------------------
  // Initial field values

  /** A JavaScript string value is truthy when it is present and not empty. */
  predicate Truthy(s: Option<string>)
  {
    s.Some? && s.value != ""
  }

  /** `id.split('-')`: the pieces of `id` between its dashes. */
  function Split(id: string): (parts: seq<string>)
    ensures |parts| >= 1
    ensures forall k :: 0 <= k < |parts| ==> '-' !in parts[k]
  {
    if id == [] then [[]]
    else
      var parts := Split(id[..|id| - 1]);
      var c := id[|id| - 1];
      if c == '-' then parts + [[]]
      else parts[..|parts| - 1] + [parts[|parts| - 1] + [c]]
  }

  /** The pieces joined with dashes, as `Array.prototype.join('-')` does. */
  function Join(parts: seq<string>): string
    requires |parts| >= 1
  {
    if |parts| == 1 then parts[0] else Join(parts[..|parts| - 1]) + "-" + parts[|parts| - 1]
  }

  /** Splitting at dashes loses nothing: joining the pieces back gives the id. */
  lemma {:induction false} JoinSplit(id: string)
    ensures Join(Split(id)) == id
  {
    if id != [] {
      var init, c := id[..|id| - 1], id[|id| - 1];
      assert id == init + [c];
      JoinSplit(init);
      if c != '-' {
        JoinExtendLast(Split(init), c);
      }
    }
  }

  /** Adding a character to the last piece adds it to the end of the joined string. */
  lemma JoinExtendLast(parts: seq<string>, c: char)
    requires |parts| >= 1
    ensures Join(parts[..|parts| - 1] + [parts[|parts| - 1] + [c]]) == Join(parts) + [c]
  {
    var parts' := parts[..|parts| - 1] + [parts[|parts| - 1] + [c]];
    if |parts| > 1 {
      assert parts'[..|parts'| - 1] == parts[..|parts| - 1];
    }
  }

  /**
   * The part of the id after its last dash, or all of it: the longest tail
   * of the id without a dash.
   */
  function LastSegment(id: string): (r: string)
    ensures '-' !in r
    ensures |r| <= |id| && id[|id| - |r|..] == r
    ensures |r| < |id| ==> id[|id| - |r| - 1] == '-'
  {
    if id == [] || id[|id| - 1] == '-' then []
    else
      var init := id[..|id| - 1];
      var r := LastSegment(init) + [id[|id| - 1]];
      assert id == init + [id[|id| - 1]];
      r
  }

  /** `id.split('-').pop()` is the last segment. */
  lemma {:induction false} LastSegmentIsLastPiece(id: string)
    ensures LastSegment(id) == Split(id)[|Split(id)| - 1]
  {
    if id != [] {
      var init, c := id[..|id| - 1], id[|id| - 1];
      assert id == init + [c];
      LastSegmentIsLastPiece(init);
    }
  }

  /** `data.inputName || \`input_${id.split('-').pop()}\`` */
  function InitialInputName(id: string, inputName: Option<string>): string
  {
    if Truthy(inputName) then inputName.value else "input_" + LastSegment(id)
  }

  /** `data.outputName || \`output_${id.split('-').pop()}\`` */
  function InitialOutputName(id: string, outputName: Option<string>): string
  {
    if Truthy(outputName) then outputName.value else "output_" + LastSegment(id)
  }

  /** `data.inputType || "Text"`, and the same for `outputType`. */
  function InitialType(dataType: Option<string>): (t: string)
    ensures t != ""
    ensures Truthy(dataType) ==> t == dataType.value
    ensures !Truthy(dataType) ==> t == "Text" && t in InputTypes && t in OutputTypes
  {
    if Truthy(dataType) then dataType.value else "Text"
  }

  /** `data?.text || ''` */
  function InitialText(text: Option<string>): (t: string)
    ensures t == if text.Some? then text.value else ""
  {
    if Truthy(text) then text.value else ""
  }

  /** The choices of the type selectors. */
  const InputTypes: seq<string> := ["Text", "File", "Number"]
  const OutputTypes: seq<string> := ["Text", "Image", "JSON"]

  /** A non-empty name given in the data wins; otherwise the name is the prefix and the id's last segment. */
  lemma InitialNames(id: string, given: Option<string>)
    ensures Truthy(given) ==> InitialInputName(id, given) == given.value == InitialOutputName(id, given)
    ensures !Truthy(given) ==>
      && InitialInputName(id, given)[..6] == "input_"
      && InitialOutputName(id, given)[..7] == "output_"
      && InitialInputName(id, given)[6..] == InitialOutputName(id, given)[7..] == LastSegment(id)
      && '-' !in LastSegment(id)
  {
  }

  lemma DefaultNameExample(id: string)
    requires id == "customInput-3"
    ensures InitialInputName(id, None) == "input_3"
    ensures InitialOutputName(id, Some("")) == "output_3"
  {
    var init := id[..|id| - 1];
    assert init == "customInput-" && id[|id| - 1] == '3';
    assert LastSegment(init) == [];
    assert LastSegment(id) == "3";
  }

  // ---------------------------------------------------------------------------
  // Change notification

  /** The object the input node passes to `data.onChange`. */
  datatype InputChange = InputChange(inputName: string, inputType: string)

  /** The object the output node passes to `data.onChange`. */
  datatype OutputChange = OutputChange(outputName: string, outputType: string)

  /** The effect of the input node: when `data.onChange` is a function it is called with the current values. */
  function InputNotification(onChangeIsFunction: bool, name: string, inputType: string): Option<InputChange>
  {
    if onChangeIsFunction then Some(InputChange(name, inputType)) else None
  }

  function OutputNotification(onChangeIsFunction: bool, name: string, outputType: string): Option<OutputChange>
  {
    if onChangeIsFunction then Some(OutputChange(name, outputType)) else None
  }

  /**
   * What `onChange` writes back restores the fields when the node is mounted
   * again from that data, unless a field was emptied: an empty name falls
   * back to the default name, and an empty type to `Text`.
   */
  lemma InputSyncRoundTrip(id: string, name: string, inputType: string)
    ensures var call := InputNotification(true, name, inputType).value;
      && (InitialInputName(id, Some(call.inputName)) == name <==> name != "")
      && (InitialType(Some(call.inputType)) == inputType <==> inputType != "")
  {
  }

  lemma OutputSyncRoundTrip(id: string, name: string, outputType: string)
    ensures var call := OutputNotification(true, name, outputType).value;
      && (InitialOutputName(id, Some(call.outputName)) == name <==> name != "")
      && (InitialType(Some(call.outputType)) == outputType <==> outputType != "")
  {
  }
}

/**
 * The `generateProtobuf` command step: for every command of the catalog
 * except itself, one proto3 file with a service of one `execute` RPC, a
 * request message with one field per argument followed by a
 * `configuration` map field, and a fixed Response message.
 *
 * The upper-camel form of the file's base name comes from library code
 * (StringUtil.toCamelCase then upperCaseFirst); it is the parameter `camel`.
 */
module GenerateProtobuf {
  import opened JavaStrings
  import opened Naming
  import opened Commands

  /** The step's own COMMAND_NAME. */
  const CommandName: seq<string> := ["generateProtobuf"]

  // ---------------------------------------------------------------------
  // toSnakeCase

  method ToSnakeCase(str: string) returns (result: string)
    requires |str| > 0
    ensures result == Snake(str)
  {
    var c := str[0];
    result := [ToLower(c)];
    for i := 1 to |str|
      invariant result == [ToLower(c)] + MarkAll(str[1..i], '_')
    {
      var ch := str[i];
      assert str[1..i + 1][..i - 1] == str[1..i];
      if IsUpper(ch) {
        result := result + ['_'];
        result := result + [ToLower(ch)];
      } else {
        result := result + [ch];
      }
    }
    assert str[1..|str|] == str[1..];
  }

  // ---------------------------------------------------------------------
  // The text of one command's file

  /** The first name token, then "_" and the second token when there is one. */
  function JoinedName(name: seq<string>): string
    requires |name| >= 1
  {
    if |name| > 1 then name[0] + "_" + name[1] else name[0]
  }

  /** Tokens after the second take no part in the file name. */
  lemma JoinedNameUsesTwoTokens(name: seq<string>)
    requires |name| >= 2
    ensures JoinedName(name) == JoinedName(name[..2]) == name[0] + "_" + name[1]
  {
  }

  /** The step can read the command's first name token and snake-case the joined name. */
  predicate Renderable(c: Command)
  {
    |c.name| >= 1 && |JoinedName(c.name)| > 0
  }

  /** The file's base name, also used as the proto package. */
  function BaseName(c: Command): string
    requires Renderable(c)
  {
    Snake(JoinedName(c.name))
  }

  function FileName(c: Command): string
    requires Renderable(c)
  {
    BaseName(c) + ".proto"
  }

  /** The base name is in lower snake case: no upper-case letter, and snake-casing it again changes nothing. */
  lemma BaseNameIsLowerSnake(c: Command)
    requires Renderable(c)
    ensures NoUpper(BaseName(c)) && Snake(BaseName(c)) == BaseName(c)
    ensures FileName(c)[..|BaseName(c)|] == BaseName(c)
  {
    SnakeIdempotent(JoinedName(c.name));
  }

  /** The proto scalar type for the simple name of an argument's Java type, compared ignoring case. */
  function ProtoType(dataType: string): string
  {
    if EqualsIgnoreCase(dataType, "string") then "string"
    else if EqualsIgnoreCase(dataType, "boolean") then "bool"
    else if EqualsIgnoreCase(dataType, "Integer") then "int32"
    else "string"
  }

  /**
   * The table is total: "string", "boolean" and "integer" in any case give
   * string, bool and int32, and every other type name falls back to string.
   */
  lemma ProtoTypeTable(dataType: string)
    ensures ProtoType(dataType) == "string" || ProtoType(dataType) == "bool" || ProtoType(dataType) == "int32"
    ensures ProtoType(dataType) == "bool" <==> EqualsIgnoreCase(dataType, "boolean")
    ensures ProtoType(dataType) == "int32" <==> EqualsIgnoreCase(dataType, "integer")
  {
    if EqualsIgnoreCase(dataType, "boolean") {
      assert ToLower(dataType[0]) == 'b';
    }
    if EqualsIgnoreCase(dataType, "integer") <==> !EqualsIgnoreCase(dataType, "Integer") {
      assert |dataType| == 7;
      assert ToLower('I') == 'i';
    }
  }

  /** Type names that differ only in case map to the same proto type. */
  lemma ProtoTypeIgnoresCase(a: string, b: string)
    requires EqualsIgnoreCase(a, b)
    ensures ProtoType(a) == ProtoType(b)
  {
    EqualsIgnoreCaseSymmetric(a, b);
    forall t | t in ["string", "boolean", "Integer"]
      ensures EqualsIgnoreCase(a, t) <==> EqualsIgnoreCase(b, t)
    {
      if EqualsIgnoreCase(a, t) {
        EqualsIgnoreCaseSymmetric(b, a);
        EqualsIgnoreCaseTransitive(b, a, t);
      }
      if EqualsIgnoreCase(b, t) {
        EqualsIgnoreCaseTransitive(a, b, t);
      }
    }
  }

  /** `  optional <type> <argument name> = <n>;` */
  function FieldDeclaration(a: Argument, n: nat): string
  {
    "  optional" + " " + ProtoType(a.dataType) + " " + a.name + " = " + Show(n) + ";"
  }

  function RequiredMark(required: bool): string
  {
    if required then "*required* " else ""
  }

  /** ` // [*required* ]<description>` and the end of the line. */
  function FieldComment(a: Argument): string
  {
    " // " + RequiredMark(a.required) + Text(a.description) + "\n"
  }

  function FieldLine(a: Argument, n: nat): string
  {
    FieldDeclaration(a, n) + FieldComment(a)
  }

  /** What `line` writes for each argument in turn, numbered from `first` on. */
  function Numbered(args: seq<Argument>, first: nat, line: (Argument, nat) -> string): string
    decreases |args|
  {
    if args == [] then ""
    else Numbered(args[..|args| - 1], first, line) + line(args[|args| - 1], first + |args| - 1)
  }

  /** The argument lines of a request message, numbered from `first` on. */
  function Fields(args: seq<Argument>, first: nat): string
  {
    Numbered(args, first, FieldLine)
  }

  function ConfigurationField(n: nat): string
  {
    "  map<string, string> configuration = " + Show(n) + ";\n"
  }

  function PackageLine(base: string): string
  {
    "package " + base + ";\n"
  }

  /** The lines before the package line. */
  function Preamble(uName: string, shortDescription: Option<string>): string
  {
    "syntax = \"proto3\";\n"
    + "\n"
    + "option go_package=\"./;proto\";\n"
    + "option java_package = \"org.liquibase.grpc.proto\";\n"
    + "option java_multiple_files = true;\n"
    + ("option java_outer_classname = \"" + uName + "Proto\";\n")
    + "\n"
    + ("/* " + Text(shortDescription) + " */")
    + "\n"
  }

  /** The service block and the opening of the request message. */
  function ServiceBlock(uName: string): string
  {
    "\n"
    + ("service " + uName + "Service {\n")
    + ("  rpc execute(" + uName + "Request) returns (Response) {}\n")
    + "}\n"
    + "\n"
    + ("message " + uName + "Request {\n")
  }

  /** Everything before the request message's fields. */
  function Header(uName: string, shortDescription: Option<string>, base: string): string
  {
    Preamble(uName, shortDescription) + PackageLine(base) + ServiceBlock(uName)
  }

  const ResponseMessage: string := "message Response {\n" + "  string message = 1;\n" + "}\n"

  /** The end of the request message and the Response message. */
  const MessageEnd: string := "}\n" + "\n" + ResponseMessage

  /** The whole file written for command `c`, in the order written. */
  function ProtoText(c: Command, camel: string -> string): string
    requires Renderable(c)
  {
    var base := BaseName(c);
    var uName := camel(base);
    Header(uName, c.shortDescription, base)
    + Fields(c.arguments, 1)
    + ConfigurationField(|c.arguments| + 1)
    + MessageEnd
  }

  // ---------------------------------------------------------------------
  // What the file text promises

  lemma {:induction false} NumberedAppend(a: seq<Argument>, b: seq<Argument>, first: nat, line: (Argument, nat) -> string)
    ensures Numbered(a + b, first, line) == Numbered(a, first, line) + Numbered(b, first + |a|, line)
    decreases |b|
  {
    if b == [] {
      assert a + b == a;
    } else {
      var init := b[..|b| - 1];
      assert (a + b)[..|a + b| - 1] == a + init;
      NumberedAppend(a, init, first, line);
    }
  }

  /**
   * Field numbers are contiguous from 1 in argument order: the k-th argument
   * (from 0) is written as field k + 1, after the lines of the arguments
   * before it and before those of the arguments after it, which go on from
   * k + 2.
   */
  lemma FieldNumbering(args: seq<Argument>, k: nat)
    requires k < |args|
    ensures Fields(args, 1) == Fields(args[..k], 1) + FieldLine(args[k], k + 1) + Fields(args[k + 1..], k + 2)
  {
    assert args == args[..k] + [args[k]] + args[k + 1..];
    NumberedAppend(args[..k] + [args[k]], args[k + 1..], 1, FieldLine);
    NumberedAppend(args[..k], [args[k]], 1, FieldLine);
    assert [args[k]][..0] == [];
  }

  /**
   * Every field line begins with `  optional`; marking the argument required
   * only inserts `*required* ` at the start of its comment.
   */
  lemma FieldLineRequiredMark(a: Argument, n: nat)
    ensures StartsWith(FieldLine(a, n), "  optional")
    ensures var plain := FieldLine(a.(required := false), n);
      var p := |FieldDeclaration(a, n)| + 4;
      p <= |plain| && FieldLine(a.(required := true), n) == plain[..p] + "*required* " + plain[p..]
  {
    var d := FieldDeclaration(a, n);
    assert FieldDeclaration(a.(required := false), n) == d;
    assert FieldDeclaration(a.(required := true), n) == d;
    InsertInComment(d, " // ", "*required* ", Text(a.description));
  }

  lemma InsertInComment(d: string, open: string, mark: string, t: string)
    requires |open| == 4
    ensures var plain := d + (open + "" + t + "\n");
      |d| + 4 <= |plain| &&
      d + (open + mark + t + "\n") == plain[..|d| + 4] + mark + plain[|d| + 4..]
  {
    var plain := d + (open + "" + t + "\n");
    assert plain[..|d| + 4] == d + open;
    assert plain[|d| + 4..] == t + "\n";
  }

  /** The number written in a field declaration reads back as the field's number. */
  lemma FieldNumberReadsBack(a: Argument, n: nat)
    ensures var d := FieldDeclaration(a, n);
      var p := |d| - 1 - |Show(n)|;
      0 <= p && d[p..|d| - 1] == Show(n) && ParseDecimal(d[p..|d| - 1]) == n
  {
    var front := "  optional" + " " + ProtoType(a.dataType) + " " + a.name + " = ";
    SliceBeforeLast(front, Show(n), ";");
    ParseShow(n);
  }

  /** The field number is preceded by the space of " = ". */
  lemma SpaceBeforeNumber(a: Argument, n: nat)
    ensures var d := FieldDeclaration(a, n);
      var p := |d| - 1 - |Show(n)|;
      1 <= p && d[p - 1] == ' '
  {
    var front := "  optional" + " " + ProtoType(a.dataType) + " " + a.name + " = ";
    var d := FieldDeclaration(a, n);
    assert d == front + Show(n) + ";";
    assert d[|front| - 1] == front[|front| - 1];
  }

  /** Two fields with different numbers are declared with different texts. */
  lemma FieldDeclarationsDistinct(a: Argument, b: Argument, m: nat, n: nat)
    requires m != n
    ensures FieldDeclaration(a, m) != FieldDeclaration(b, n)
  {
    if FieldDeclaration(a, m) == FieldDeclaration(b, n) {
      FieldNumberReadsBack(a, m);
      FieldNumberReadsBack(b, n);
      SpaceBeforeNumber(a, m);
      SpaceBeforeNumber(b, n);
      if |Show(m)| == |Show(n)| {
        ShowInjective(m, n);
      }
    }
  }

  lemma SliceBeforeLast(x: string, m: string, y: string)
    requires |y| == 1
    ensures var t := x + m + y; t[|t| - 1 - |m|..|t| - 1] == m
  {
  }

  /** The package line names the file's base name, right after the preamble. */
  lemma PackageIsBaseName(c: Command, camel: string -> string)
    requires Renderable(c)
    ensures StartsWith(ProtoText(c, camel), Preamble(camel(BaseName(c)), c.shortDescription) + PackageLine(BaseName(c)))
  {
    var base := BaseName(c);
    var uName := camel(base);
    var p := Preamble(uName, c.shortDescription) + PackageLine(base);
    StartsWithConcat(p, ServiceBlock(uName));
    var h := Header(uName, c.shortDescription, base);
    StartsWithAppend(h, p, Fields(c.arguments, 1));
    StartsWithAppend(h + Fields(c.arguments, 1), p, ConfigurationField(|c.arguments| + 1));
    StartsWithAppend(h + Fields(c.arguments, 1) + ConfigurationField(|c.arguments| + 1), p, MessageEnd);
  }

  /** Every file ends with the same Response message. */
  lemma EndsWithResponse(c: Command, camel: string -> string)
    requires Renderable(c)
    ensures EndsWith(ProtoText(c, camel), ResponseMessage)
  {
    var uName := camel(BaseName(c));
    var p := Header(uName, c.shortDescription, BaseName(c))
      + Fields(c.arguments, 1)
      + ConfigurationField(|c.arguments| + 1);
    var close := "}\n" + "\n";
    assert MessageEnd == close + ResponseMessage;
    AppendAssoc(p, close, ResponseMessage);
    SuffixOf(p + close, ResponseMessage);
  }

  lemma SuffixOf(p: string, e: string)
    ensures EndsWith(p + e, e)
  {
  }

  /** Appends the line of one argument, numbered `i`, to what is written so far. */
  method WriteField(writer: string, entry: Argument, i: nat) returns (text: string)
    ensures text == writer + FieldLine(entry, i)
  {
    var optional := "  optional";
    var dataTypeName := entry.dataType;
    var argumentName := entry.name;
    text := writer;
    if EqualsIgnoreCase(dataTypeName, "string") {
      text := text + (optional + " string " + argumentName + " = " + Show(i) + ";");
      DeclarationText(entry, i, "string", " string ");
    } else if EqualsIgnoreCase(dataTypeName, "boolean") {
      text := text + (optional + " bool " + argumentName + " = " + Show(i) + ";");
      DeclarationText(entry, i, "bool", " bool ");
    } else if EqualsIgnoreCase(dataTypeName, "Integer") {
      text := text + (optional + " int32 " + argumentName + " = " + Show(i) + ";");
      DeclarationText(entry, i, "int32", " int32 ");
    } else {
      text := text + (optional + " string " + argumentName + " = " + Show(i) + ";");
      DeclarationText(entry, i, "string", " string ");
    }
    var required := if entry.required then "*required* " else "";
    text := text + (" // " + required + Text(entry.description) + "\n");
    AppendAssoc(writer, FieldDeclaration(entry, i), FieldComment(entry));
  }

  lemma DeclarationText(a: Argument, n: nat, t: string, spaced: string)
    requires t == ProtoType(a.dataType) && spaced == " " + t + " "
    ensures "  optional" + spaced + a.name + " = " + Show(n) + ";" == FieldDeclaration(a, n)
  {
  }

  /** Writes the numbered argument lines and the configuration field that follows them. */
  method WriteArguments(writer: string, arguments: seq<Argument>) returns (text: string)
    ensures text == writer + Fields(arguments, 1) + ConfigurationField(|arguments| + 1)
  {
    text := writer;
    var i := 1;
    for k := 0 to |arguments|
      invariant i == k + 1
      invariant text == writer + Fields(arguments[..k], 1)
    {
      ghost var before := text;
      text := WriteField(text, arguments[k], i);
      assert arguments[..k + 1][..k] == arguments[..k];
      AppendAssoc(writer, Fields(arguments[..k], 1), FieldLine(arguments[k], i));
      i := i + 1;
    }
    assert arguments[..|arguments|] == arguments;
    text := text + ("  map<string, string> configuration = " + Show(i) + ";\n");
  }

  /** Writes the lines up to and including the opening of the request message. */
  method WriteHeader(uCommandName: string, shortDescription: Option<string>, commandName: string) returns (text: string)
    ensures text == Header(uCommandName, shortDescription, commandName)
  {
    text := WritePreamble(uCommandName, shortDescription);
    text := text + ("package " + commandName + ";\n");
    ghost var upToPackage := text;
    text := text + "\n";
    text := text + ("service " + uCommandName + "Service {\n");
    text := text + ("  rpc execute(" + uCommandName + "Request) returns (Response) {}\n");
    text := text + "}\n";
    text := text + "\n";
    text := text + ("message " + uCommandName + "Request {\n");
    AppendAssoc6(upToPackage, "\n", "service " + uCommandName + "Service {\n",
      "  rpc execute(" + uCommandName + "Request) returns (Response) {}\n", "}\n", "\n",
      "message " + uCommandName + "Request {\n");
  }

  lemma AppendAssoc6(x: string, a: string, b: string, c: string, d: string, e: string, f: string)
    ensures x + a + b + c + d + e + f == x + (a + b + c + d + e + f)
  {
  }

  /** Writes the syntax line, the options and the description comment. */
  method WritePreamble(uCommandName: string, shortDescription: Option<string>) returns (text: string)
    ensures text == Preamble(uCommandName, shortDescription)
  {
    text := "syntax = \"proto3\";\n";
    text := text + "\n";
    text := text + "option go_package=\"./;proto\";\n";
    text := text + "option java_package = \"org.liquibase.grpc.proto\";\n";
    text := text + "option java_multiple_files = true;\n";
    text := text + ("option java_outer_classname = \"" + uCommandName + "Proto\";\n");
    text := text + "\n";
    text := text + ("/* " + Text(shortDescription) + " */");
    text := text + "\n";
  }

  /** Closes the request message and writes the Response message. */
  method WriteMessageEnd(writer: string) returns (text: string)
    ensures text == writer + MessageEnd
  {
    text := writer + "}\n";
    text := text + "\n";
    AppendAssoc(writer, "}\n", "\n");
    ghost var closed := text;
    text := text + "message Response {\n";
    text := text + "  string message = 1;\n";
    text := text + "}\n";
    AppendAssoc(closed, "message Response {\n", "  string message = 1;\n");
    AppendAssoc(closed, "message Response {\n" + "  string message = 1;\n", "}\n");
    assert text == closed + ResponseMessage;
    AppendAssoc(writer, "}\n" + "\n", ResponseMessage);
  }

  /** The file name and the text the step writes for one command. */
  method RenderCommand(commandDefinition: Command, camel: string -> string) returns (fileName: string, text: string)
    requires Renderable(commandDefinition)
    ensures fileName == FileName(commandDefinition)
    ensures text == ProtoText(commandDefinition, camel)
  {
    var names := commandDefinition.name;
    var commandName := names[0];
    if |names| > 1 {
      commandName := commandName + "_" + names[1];
    }
    commandName := ToSnakeCase(commandName);
    var uCommandName := camel(commandName);
    fileName := commandName + ".proto";
    text := WriteHeader(uCommandName, commandDefinition.shortDescription, commandName);
    text := WriteArguments(text, commandDefinition.arguments);
    text := WriteMessageEnd(text);
  }

  // ---------------------------------------------------------------------
  // The run over the whole catalog

  /** A file to write: its path under the output directory and its text. */
  datatype ProtoFile = ProtoFile(path: string, text: string)

  /** The step recognises itself by its name. */
  predicate IsSelf(c: Command)
  {
    c.name == CommandName
  }

  /** Every command the step renders can be rendered. */
  predicate CatalogRenderable(commands: seq<Command>)
  {
    forall c :: c in commands && !IsSelf(c) ==> Renderable(c)
  }

  function FileFor(c: Command, outputDir: string, camel: string -> string): ProtoFile
    requires Renderable(c)
  {
    ProtoFile(outputDir + "/" + FileName(c), ProtoText(c, camel))
  }

  /** The commands the step renders, in catalog order: all but itself. */
  function Rendered(commands: seq<Command>): (r: seq<Command>)
    ensures forall c :: c in r ==> c in commands && !IsSelf(c)
    decreases |commands|
  {
    if commands == [] then []
    else
      var init, last := commands[..|commands| - 1], commands[|commands| - 1];
      Rendered(init) + (if IsSelf(last) then [] else [last])
  }

  function SelfCount(commands: seq<Command>): nat
    decreases |commands|
  {
    if commands == [] then 0
    else SelfCount(commands[..|commands| - 1]) + (if IsSelf(commands[|commands| - 1]) then 1 else 0)
  }

  /** The files of a run: one per rendered command, in the same order. */
  function Generated(commands: seq<Command>, outputDir: string, camel: string -> string): (files: seq<ProtoFile>)
    requires CatalogRenderable(commands)
    ensures |files| == |Rendered(commands)|
  {
    var r := Rendered(commands);
    seq(|r|, j requires 0 <= j < |r| => FileFor(r[j], outputDir, camel))
  }

  method Run(commands: seq<Command>, outputDir: string, camel: string -> string) returns (files: seq<ProtoFile>)
    requires CatalogRenderable(commands)
    ensures files == Generated(commands, outputDir, camel)
  {
    files := [];
    for k := 0 to |commands|
      invariant |files| == |Rendered(commands[..k])|
      invariant forall j :: 0 <= j < |files| ==> files[j] == FileFor(Rendered(commands[..k])[j], outputDir, camel)
    {
      var commandDefinition := commands[k];
      assert commands[..k + 1][..k] == commands[..k];
      if IsSelf(commandDefinition) {
        continue;
      }
      var fileName, text := RenderCommand(commandDefinition, camel);
      files := files + [ProtoFile(outputDir + "/" + fileName, text)];
    }
    assert commands[..|commands|] == commands;
  }

  /** A command is rendered exactly when it is in the catalog and is not the step itself; hidden ones too. */
  lemma {:induction false} RenderedMembers(commands: seq<Command>, c: Command)
    ensures c in Rendered(commands) <==> c in commands && !IsSelf(c)
    decreases |commands|
  {
    if commands != [] {
      var init, last := commands[..|commands| - 1], commands[|commands| - 1];
      assert commands == init + [last];
      RenderedMembers(init, c);
    }
  }

  /** Rendering a concatenated catalog renders each part, in order. */
  lemma {:induction false} RenderedAppend(a: seq<Command>, b: seq<Command>)
    ensures Rendered(a + b) == Rendered(a) + Rendered(b)
    decreases |b|
  {
    if b == [] {
      assert a + b == a;
    } else {
      var init := b[..|b| - 1];
      assert (a + b)[..|a + b| - 1] == a + init;
      RenderedAppend(a, init);
    }
  }

  /** One file per command other than the step itself. */
  lemma {:induction false} GeneratedCount(commands: seq<Command>, outputDir: string, camel: string -> string)
    requires CatalogRenderable(commands)
    ensures |Generated(commands, outputDir, camel)| + SelfCount(commands) == |commands|
    decreases |commands|
  {
    if commands != [] {
      var init := commands[..|commands| - 1];
      assert CatalogRenderable(init) by {
        forall c | c in init && !IsSelf(c) ensures Renderable(c) {
          assert c in commands;
        }
      }
      GeneratedCount(init, outputDir, camel);
    }
  }

  /** The files of a concatenated catalog are the files of each part, in order. */
  lemma GeneratedAppend(a: seq<Command>, b: seq<Command>, outputDir: string, camel: string -> string)
    requires CatalogRenderable(a + b)
    ensures CatalogRenderable(a) && CatalogRenderable(b)
    ensures Generated(a + b, outputDir, camel) == Generated(a, outputDir, camel) + Generated(b, outputDir, camel)
  {
    assert forall c :: c in a ==> c in a + b;
    assert forall c :: c in b ==> c in a + b;
    RenderedAppend(a, b);
    var ra, rb := Rendered(a), Rendered(b);
    var g, ga, gb := Generated(a + b, outputDir, camel), Generated(a, outputDir, camel), Generated(b, outputDir, camel);
    forall j | 0 <= j < |g| ensures g[j] == (ga + gb)[j] {
      if j < |ra| {
        assert (ra + rb)[j] == ra[j];
      } else {
        assert (ra + rb)[j] == rb[j - |ra|];
      }
    }
  }

  /** Every command other than the step itself, hidden or not, gets its file. */
  lemma GeneratedCovers(commands: seq<Command>, outputDir: string, camel: string -> string, c: Command)
    requires CatalogRenderable(commands)
    requires c in commands && !IsSelf(c)
    ensures Renderable(c) && FileFor(c, outputDir, camel) in Generated(commands, outputDir, camel)
  {
    var r := Rendered(commands);
    RenderedMembers(commands, c);
    var j :| 0 <= j < |r| && r[j] == c;
    assert Generated(commands, outputDir, camel)[j] == FileFor(c, outputDir, camel);
  }

  /**
   * Every file written is the file of some command of the catalog other than
   * the step itself, and it ends with the common Response message.
   */
  lemma GeneratedOnly(commands: seq<Command>, outputDir: string, camel: string -> string, f: ProtoFile)
    requires CatalogRenderable(commands)
    requires f in Generated(commands, outputDir, camel)
    ensures exists c :: c in commands && !IsSelf(c) && Renderable(c) && f == FileFor(c, outputDir, camel)
    ensures EndsWith(f.text, ResponseMessage)
  {
    var r := Rendered(commands);
    var files := Generated(commands, outputDir, camel);
    var j :| 0 <= j < |files| && files[j] == f;
    assert r[j] in r;
    assert f == FileFor(r[j], outputDir, camel);
    EndsWithResponse(r[j], camel);
  }
}

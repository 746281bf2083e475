# Liquibase protobuf generator: the two text generators

This project models the two command steps of the Liquibase protobuf plugin
that turn the host's command catalog into text:

- `generateProtobuf` writes, for every command of the catalog except itself,
  one proto3 file (one write, in catalog order) named after the command's
  snake-cased name. The file holds a header with package options, a service with a single `execute` RPC, a
  request message with one `optional` field per argument (numbered 1..n in
  argument-map order) followed by a `map<string, string> configuration`
  field numbered n + 1, and a fixed `Response` message.
- `listCommands` writes the text of a JSON array with one entry per command
  that survives the edition filter and is neither hidden nor one of the two
  generator steps. Each entry is the command's name tokens in kebab case,
  separated by single spaces, wrapped in `"` but not escaped. With nothing
  listed the text is `]` (see "## Findings").

Both steps append to an output buffer. Here each buffer is a `string` that
the methods grow by appending, in the order the source writes. Each method is
proved equal to a specification function of its inputs, and the properties the
steps promise are proved as lemmas about those functions.

Modules:

- `JavaStrings` holds the Java library text operations the steps use, with
  ASCII case semantics: `Character.isUpperCase` and `toLowerCase`,
  `equalsIgnoreCase`, `contains`, `trim`, `Integer.toString`, and the
  text `"null"` that concatenation writes for a null string.
- `Commands` holds the command and argument descriptors, reduced to the
  values the steps read from them.
- `Naming` defines the camel-case splitting shared by `toSnakeCase` and
  `toKebabCase`, with its lemmas.
- `GenerateProtobuf` and `ListCommands` model the two steps.

The library call `StringUtil.upperCaseFirst(StringUtil.toCamelCase(name))`
is the parameter `camel`, a function the model knows nothing about.

What `generateProtobuf` writes:

- It renders every command of the catalog except itself, hidden ones
  included, and every argument of each command.
- It writes argument names as given, without changing their case.
- The request message is flat, named `<UName>Request`, for one-token and
  two-token commands alike; tokens after the second take no part in the name.
- The proto package is the file's base name, so it differs from command to
  command; the `java_package` option is the same for every command.
- Every field carries `optional`, and a required argument only gets
  `*required* ` at the head of its comment.
- The trailing field is `map<string, string> configuration`, numbered one past
  the last argument.
- `toSnakeCase` changes only upper-case letters; every other character,
  whitespace included, is copied unchanged.

## Model

| member | source | states |
|---|---|---|
| GenerateProtobuf.ToSnakeCase | src/main/java/liquibase/command/GenerateProtobufCommandStep.java:106-123 | the loop's result is the camel-case split with separator `_` of the input |
| Naming.ConvertFirst | src/main/java/liquibase/command/GenerateProtobufCommandStep.java:108-109 | for every non-empty input, one character long included, the result is at least as long as the input and starts with the lower case of s[0] |
| Naming.ConvertAt | src/main/java/liquibase/command/GenerateProtobufCommandStep.java:108-121 | for inputs of two or more characters, the result starts with the lower case of s[0]; each later character is copied, or becomes the separator plus its lower case when it is upper case, at an offset shifted by the upper-case characters before it |
| Naming.ConvertLength | src/main/java/liquibase/command/GenerateProtobufCommandStep.java:110-121 | the result is as long as the input plus the number of upper-case characters after the first |
| Naming.ConvertNoUpper | src/main/java/liquibase/command/GenerateProtobufCommandStep.java:108-121 | the result holds no upper-case letter |
| Naming.ConvertIdentity | src/main/java/liquibase/command/GenerateProtobufCommandStep.java:108-121 | a string without upper-case letters is unchanged |
| Naming.SnakeIdempotent | src/main/java/liquibase/command/GenerateProtobufCommandStep.java:106-123 | snake-casing twice is snake-casing once |
| Naming.SnakeRoundTrip | src/main/java/liquibase/command/GenerateProtobufCommandStep.java:106-123 | a lower-camel name without `_` is recovered from its snake form by dropping each `_` and upper-casing the next character |
| Naming.ConvertLast | src/main/java/liquibase/command/GenerateProtobufCommandStep.java:110-121 | the last character of the result is the lower case of the input's last character |
| GenerateProtobuf.JoinedNameUsesTwoTokens | src/main/java/liquibase/command/GenerateProtobufCommandStep.java:46-49 | the joined name is the first token, `_`, then the second token; tokens after the second are ignored |
| GenerateProtobuf.BaseNameIsLowerSnake | src/main/java/liquibase/command/GenerateProtobufCommandStep.java:54-57 | the file's base name has no upper-case letter and is a fixed point of snake-casing; the file name starts with it |
| GenerateProtobuf.PackageIsBaseName | src/main/java/liquibase/command/GenerateProtobufCommandStep.java:54-68 | the package line names the same snake-cased base name as the file |
| GenerateProtobuf.ProtoTypeTable | src/main/java/liquibase/command/GenerateProtobufCommandStep.java:79-89 | the type table is total: "boolean" in any case gives bool, "integer" in any case gives int32, everything else gives string |
| GenerateProtobuf.ProtoTypeIgnoresCase | src/main/java/liquibase/command/GenerateProtobufCommandStep.java:81-89 | type names that differ only in case map to the same proto type |
| GenerateProtobuf.WriteField | src/main/java/liquibase/command/GenerateProtobufCommandStep.java:79-92 | appends exactly the line of one argument with its number and comment |
| GenerateProtobuf.WriteArguments | src/main/java/liquibase/command/GenerateProtobufCommandStep.java:75-94 | appends the argument lines numbered 1..n in map order, then the configuration field numbered n + 1 |
| GenerateProtobuf.FieldNumbering | src/main/java/liquibase/command/GenerateProtobufCommandStep.java:76-92 | the k-th argument is field k + 1, after the lines of the arguments before it and before those after it, which continue from k + 2 |
| GenerateProtobuf.FieldLineRequiredMark | src/main/java/liquibase/command/GenerateProtobufCommandStep.java:75-91 | every field line begins with `  optional`; a required argument only inserts `*required* ` at the head of its comment |
| GenerateProtobuf.FieldDeclarationsDistinct | src/main/java/liquibase/command/GenerateProtobufCommandStep.java:82-88 | two fields with different numbers never have the same declaration text |
| GenerateProtobuf.FieldNumberReadsBack | src/main/java/liquibase/command/GenerateProtobufCommandStep.java:82-88 | the decimal number written in a field declaration reads back as the field's number |
| GenerateProtobuf.WritePreamble | src/main/java/liquibase/command/GenerateProtobufCommandStep.java:59-67 | writes the syntax line, the options naming the outer class, and the description comment |
| GenerateProtobuf.WriteHeader | src/main/java/liquibase/command/GenerateProtobufCommandStep.java:59-74 | writes the preamble, the package line, the service with its `execute` RPC and the opening of the request message |
| GenerateProtobuf.WriteMessageEnd | src/main/java/liquibase/command/GenerateProtobufCommandStep.java:95-99 | closes the request message and writes the Response message |
| GenerateProtobuf.EndsWithResponse | src/main/java/liquibase/command/GenerateProtobufCommandStep.java:97-99 | every file ends with the same Response message |
| GenerateProtobuf.RenderCommand | src/main/java/liquibase/command/GenerateProtobufCommandStep.java:46-99 | the file name and text written for one command are those of its specification |
| GenerateProtobuf.Run | src/main/java/liquibase/command/GenerateProtobufCommandStep.java:39-101 | the run performs one write (path and text) per command of the catalog other than the step itself, in catalog order |
| GenerateProtobuf.RenderedMembers | src/main/java/liquibase/command/GenerateProtobufCommandStep.java:39-44 | a command is rendered exactly when it is in the catalog and is not the step itself, hidden or not |
| GenerateProtobuf.RenderedAppend | src/main/java/liquibase/command/GenerateProtobufCommandStep.java:39-44 | rendering keeps catalog order |
| GenerateProtobuf.GeneratedCount | src/main/java/liquibase/command/GenerateProtobufCommandStep.java:39-44 | the number of writes plus the number of self entries is the catalog size |
| GenerateProtobuf.GeneratedAppend | src/main/java/liquibase/command/GenerateProtobufCommandStep.java:39-58 | the files of a concatenated catalog are the files of each part, in order |
| GenerateProtobuf.GeneratedCovers | src/main/java/liquibase/command/GenerateProtobufCommandStep.java:39-58 | every command other than the step itself gets its file |
| GenerateProtobuf.GeneratedOnly | src/main/java/liquibase/command/GenerateProtobufCommandStep.java:39-99 | every file written belongs to a command other than the step itself and ends with the Response message |
| ListCommands.ToKebabCase | src/main/java/liquibase/command/ListCommandsCommandStep.java:70-84 | the loop's result is the camel-case split with separator `-` of the input |
| Naming.KebabIsSnakeWithDashes | src/main/java/liquibase/command/ListCommandsCommandStep.java:70-84 | for a name without `_`, the kebab form is the snake form with `-` for `_` |
| ListCommands.KebabAvoids | src/main/java/liquibase/command/ListCommandsCommandStep.java:70-84 | a space, comma or quote is in the kebab form only if it was in the token |
| ListCommands.EditionFilter | src/main/java/liquibase/command/ListCommandsCommandStep.java:36-41 | "pro" drops exactly the liquibase.command.core commands, "core" exactly the com.datical ones, any other edition (the default "" among them) none |
| ListCommands.Skipped | src/main/java/liquibase/command/ListCommandsCommandStep.java:36-47 | the four `continue` tests skip exactly the commands that are not listed |
| ListCommands.ListedMembers | src/main/java/liquibase/command/ListCommandsCommandStep.java:32-47 | a command is listed exactly when it is in the catalog and passes the filters; listCommands, generateProtobuf and hidden commands never are |
| ListCommands.ListedAppend | src/main/java/liquibase/command/ListCommandsCommandStep.java:32-47 | listing keeps catalog order |
| ListCommands.FormatName | src/main/java/liquibase/command/ListCommandsCommandStep.java:49-62 | the text between the quotes: kebab tokens joined by single spaces, or the single kebab token trimmed |
| ListCommands.EntryWords | src/main/java/liquibase/command/ListCommandsCommandStep.java:50-56 | a multi-token entry splits on spaces back into the kebab tokens: single separators, no trailing space |
| ListCommands.EntrySingle | src/main/java/liquibase/command/ListCommandsCommandStep.java:57-62 | a one-token entry is the token's kebab form when it has no blank at either end |
| ListCommands.TerminatedIsJoin | src/main/java/liquibase/command/ListCommandsCommandStep.java:51-55 | appending each word with a separator and deleting the last character gives the words joined by the separator |
| ListCommands.AppendEntry | src/main/java/liquibase/command/ListCommandsCommandStep.java:56 | appends one quoted entry and a comma |
| ListCommands.ItemsAt | src/main/java/liquibase/command/ListCommandsCommandStep.java:32-61 | the i-th JSON item is the quoted entry of the i-th listed command |
| ListCommands.CloseArray | src/main/java/liquibase/command/ListCommandsCommandStep.java:64-66 | deleting the last character and appending `]` gives the listing text |
| ListCommands.Run | src/main/java/liquibase/command/ListCommandsCommandStep.java:30-66 | the JSON text written is the listing of the catalog for the edition |
| ListCommands.EmptyListing | src/main/java/liquibase/command/ListCommandsCommandStep.java:64-66 | when no command survives the filters the output is exactly `]` |
| ListCommands.ListingEntries | src/main/java/liquibase/command/ListCommandsCommandStep.java:30-66 | otherwise the output is bracketed, and between the brackets it splits on commas into the quoted entries in catalog order |
| ListCommands.JsonArray | src/main/java/liquibase/command/ListCommandsCommandStep.java:64-66 | the intended array: always bracketed, and `[]` when nothing is listed |
| ListCommands.JsonArrayItems | src/main/java/liquibase/command/ListCommandsCommandStep.java:64-66 | between its brackets the intended array splits on commas into its items |
| ListCommands.JsonOfEmptyDiffers | src/main/java/liquibase/command/ListCommandsCommandStep.java:64-66 | the written text equals the intended array whenever something is listed; when nothing is, it lacks the opening `[` |

## Findings

| source | as written | input that shows it | evidently intended | confidence | as-written member | corrected member |
|---|---|---|---|---|---|---|
| src/main/java/liquibase/command/ListCommandsCommandStep.java:64-66 | deletes the last character of the JSON buffer to drop the trailing comma, even when no entry was written | a catalog in which no command survives the filters (for example an empty one) | the output is `[]`, an empty JSON array | high, not executed | ListCommands.EmptyListing | ListCommands.JsonArray |

`ListCommands.Run` keeps the as-written behaviour, so that it models the
step. `ListCommands.JsonOfEmptyDiffers` relates the two definitions.

## Left out

- File and stream output: the `FileWriter`/`BufferedWriter` of each proto file and the final `getOutputStream().write`. The model produces each file's path and text and the listing's text. It does not model the writes or their failures.
- The `System.out.println` diagnostics and `getConfigurations()`. The latter only prints, and its result is discarded.
- The Scope singleton, `CommandFactory` and `LiquibaseConfiguration` lookups. The catalog is a parameter (a sequence in the factory's sorted order), and so are the `outputDir` and `edition` argument values.
- `StringUtil.toCamelCase` and `upperCaseFirst` are library code that is not part of this model. Their composition is the function parameter `camel`.
- Reflection: `getDataType().getSimpleName()` and the class name of the first pipeline step are plain string fields of the descriptors. An empty pipeline, on which `get(0)` would throw, is not modelled.
- Java reference equality `getName() == COMMAND_NAME` is modelled as equality of the name tokens.
- Unicode case rules: `Character.isUpperCase` and `toLowerCase` are modelled on ASCII letters only.
- The exceptions on malformed names. Both become preconditions:
  - In `generateProtobuf`, `getName()[0]` throws on an empty name array. `toSnakeCase` then reads `charAt(0)` of the joined name, which is empty only for the name `[""]`. `GenerateProtobuf.Renderable` therefore asks for at least one name token and a non-empty joined name. An empty token elsewhere does not throw: `["", "run"]` gives `_run`. Tokens after the second are never read.
  - In `listCommands`, every token of a listed command goes through `toKebabCase`, so `ListCommands.Printable` asks for every token of a listed command to be non-empty. There is no at-least-one-token requirement: for an empty name array the step writes the entry `""`.
- JSON escaping: `listCommands` wraps each entry in `"` without escaping, and the model keeps that; a token holding `"` or `\` gives text that is not the JSON string of that token (the token `a"b` is written as `"a"b"`).
- GenerateProtobuf.Run: the model is the ordered sequence of writes, not the final content of the output directory. Two commands can map to the same path (`["a","b","c"]` and `["a","b","d"]` both give `a_b.proto`, and so do `["aB"]` and `["a","b"]`), and a later `FileWriter` on that path replaces the earlier file, so the directory can hold fewer files than there are writes.
- The static argument definitions (`CommandBuilder`, default values, descriptions of `outputDir` and `edition`).

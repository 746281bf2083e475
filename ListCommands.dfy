/**
 * The `listCommands` command step: a JSON array of strings, one per command
 * of the catalog that survives the edition filter and is neither one of the
 * two generator steps nor hidden. Each string is the command's name tokens in
 * kebab case, separated by single spaces.
 *
 * The StringBuilders `json` and `out` are the local `string` variables of
 * the methods below; `replace(last, last + 1, "")` deletes their last
 * character.
 */
module ListCommands {
  import opened JavaStrings
  import opened Naming
  import opened Commands
  import GenerateProtobuf

  /** The step's own COMMAND_NAME. */
  const CommandName: seq<string> := ["listCommands"]

  // ---------------------------------------------------------------------
  // toKebabCase

  method ToKebabCase(str: string) returns (result: string)
    requires |str| > 0
    ensures result == Kebab(str)
  {
    var c := str[0];
    result := [ToLower(c)];
    var i := 1;
    while i < |str|
      invariant 1 <= i <= |str|
      invariant result == [ToLower(c)] + MarkAll(str[1..i], '-')
    {
      var ch := str[i];
      assert str[1..i + 1][..i - 1] == str[1..i];
      if IsUpper(ch) {
        result := result + ['-'];
        result := result + [ToLower(ch)];
      } else {
        result := result + [ch];
      }
      i := i + 1;
    }
    assert str[1..i] == str[1..];
  }

  /** A character that is neither a lower-case letter nor the separator stays out of the conversion of a string without it. */
  lemma {:induction false} MarkAllAvoids(t: string, sep: char, x: char)
    requires !IsLower(x) && x != sep && x !in t
    ensures x !in MarkAll(t, sep)
    decreases |t|
  {
    if t != [] {
      var init := t[..|t| - 1];
      assert x !in init by {
        forall k | 0 <= k < |init| ensures init[k] != x {
          assert init[k] == t[k];
        }
      }
      MarkAllAvoids(init, sep, x);
      assert t[|t| - 1] in t;
    }
  }

  /** A space, comma or quote in a kebab-cased token was already in the token. */
  lemma KebabAvoids(t: string, x: char)
    requires |t| > 0 && !IsLower(x) && x != '-' && x !in t
    ensures x !in Kebab(t)
  {
    var rest := t[1..];
    assert x !in rest by {
      forall k | 0 <= k < |rest| ensures rest[k] != x {
        assert rest[k] == t[k + 1];
      }
    }
    MarkAllAvoids(rest, '-', x);
    assert t[0] in t;
  }

  // ---------------------------------------------------------------------
  // Joining with a separator

  /** What appending each word followed by `sep` leaves in a builder that started empty. */
  function Terminated(words: seq<string>, sep: char): string
    decreases |words|
  {
    if words == [] then "" else Terminated(words[..|words| - 1], sep) + words[|words| - 1] + [sep]
  }

  /** The words separated by single `sep` characters. */
  function Join(words: seq<string>, sep: char): string
    requires |words| > 0
    decreases |words|
  {
    if |words| == 1 then words[0] else words[0] + [sep] + Join(words[1..], sep)
  }

  lemma {:induction false} JoinSnoc(words: seq<string>, w: string, sep: char)
    requires |words| > 0
    ensures Join(words + [w], sep) == Join(words, sep) + [sep] + w
    decreases |words|
  {
    if |words| == 1 {
      assert (words + [w])[1..] == [w];
    } else {
      assert (words + [w])[1..] == words[1..] + [w];
      JoinSnoc(words[1..], w, sep);
    }
  }

  /** Appending every word with a separator after it gives the join plus one trailing separator. */
  lemma {:induction false} TerminatedIsJoin(words: seq<string>, sep: char)
    requires |words| > 0
    ensures Terminated(words, sep) == Join(words, sep) + [sep]
    decreases |words|
  {
    var init, last := words[..|words| - 1], words[|words| - 1];
    if |words| > 1 {
      TerminatedIsJoin(init, sep);
      JoinSnoc(init, last, sep);
      assert init + [last] == words;
    }
  }

  /** Index of the first occurrence of `c`. */
  function IndexOf(s: string, c: char): (i: nat)
    requires c in s
    ensures i < |s| && s[i] == c && c !in s[..i]
    decreases |s|
  {
    if s[0] == c then 0
    else
      var i := 1 + IndexOf(s[1..], c);
      assert s[..i] == [s[0]] + s[1..][..i - 1];
      i
  }

  /** The first occurrence is the one with no occurrence before it. */
  lemma IndexOfAt(s: string, c: char, j: nat)
    requires j < |s| && s[j] == c && c !in s[..j]
    ensures IndexOf(s, c) == j
  {
  }

  /** The pieces of `s` between occurrences of `sep`. */
  function Split(s: string, sep: char): (r: seq<string>)
    ensures |r| > 0
    decreases |s|
  {
    if sep !in s then [s]
    else
      var i := IndexOf(s, sep);
      [s[..i]] + Split(s[i + 1..], sep)
  }

  /** Splitting a join on its separator gives back the words, when no word holds the separator. */
  lemma {:induction false} SplitJoin(words: seq<string>, sep: char)
    requires |words| > 0
    requires forall i :: 0 <= i < |words| ==> sep !in words[i]
    ensures Split(Join(words, sep), sep) == words
    decreases |words|
  {
    var w, ws := words[0], words[1..];
    if ws == [] {
      assert words == [w];
    } else {
      forall i | 0 <= i < |ws| ensures sep !in ws[i] {
        assert ws[i] == words[i + 1];
      }
      SplitCons(w, sep, Join(ws, sep));
      SplitJoin(ws, sep);
      assert words == [w] + ws;
    }
  }

  /** A piece without the separator, then the separator, splits off first. */
  lemma SplitCons(w: string, sep: char, rest: string)
    requires sep !in w
    ensures Split(w + [sep] + rest, sep) == [w] + Split(rest, sep)
  {
    var s := w + [sep] + rest;
    assert s[|w|] == sep;
    assert s[..|w|] == w;
    IndexOfAt(s, sep, |w|);
    assert s[|w| + 1..] == rest;
  }

  // ---------------------------------------------------------------------
  // The filters

  /** The edition argument drops core commands for "pro" and proprietary ones for "core", ignoring case. */
  predicate EditionExcludes(edition: string, className: string)
  {
    (EqualsIgnoreCase(edition, "pro") && Contains(className, "liquibase.command.core"))
    || (EqualsIgnoreCase(edition, "core") && Contains(className, "com.datical"))
  }

  /** Whether the step writes an entry for command `c`. */
  predicate IsListed(c: Command, edition: string)
  {
    !EditionExcludes(edition, c.firstStepClass)
    && c.name != CommandName
    && c.name != GenerateProtobuf.CommandName
    && !c.hidden
  }

  /**
   * Edition "pro" drops exactly the commands whose first step is in
   * liquibase.command.core, edition "core" exactly those whose first step is
   * in com.datical, and every other edition, the default "" among them, drops
   * none.
   */
  lemma EditionFilter(edition: string, className: string)
    ensures EqualsIgnoreCase(edition, "pro") ==>
      (EditionExcludes(edition, className) <==> Contains(className, "liquibase.command.core"))
    ensures EqualsIgnoreCase(edition, "core") ==>
      (EditionExcludes(edition, className) <==> Contains(className, "com.datical"))
    ensures !EqualsIgnoreCase(edition, "pro") && !EqualsIgnoreCase(edition, "core") ==>
      !EditionExcludes(edition, className)
    ensures !EqualsIgnoreCase("", "pro") && !EqualsIgnoreCase("", "core")
  {
  }

  /** The commands that get an entry, in catalog order. */
  function Listed(commands: seq<Command>, edition: string): (r: seq<Command>)
    ensures |r| <= |commands|
    decreases |commands|
  {
    if commands == [] then []
    else
      var init, last := commands[..|commands| - 1], commands[|commands| - 1];
      Listed(init, edition) + (if IsListed(last, edition) then [last] else [])
  }

  /**
   * A command is listed exactly when it is in the catalog and passes the
   * filters; in particular listCommands, generateProtobuf and hidden
   * commands never are.
   */
  lemma {:induction false} ListedMembers(commands: seq<Command>, edition: string, c: Command)
    ensures c in Listed(commands, edition) <==> c in commands && IsListed(c, edition)
    ensures c in Listed(commands, edition) ==>
      c.name != CommandName && c.name != GenerateProtobuf.CommandName && !c.hidden
    decreases |commands|
  {
    if commands != [] {
      var init, last := commands[..|commands| - 1], commands[|commands| - 1];
      assert commands == init + [last];
      ListedMembers(init, edition, c);
    }
  }

  /** Filtering keeps catalog order: the listing of a concatenation is the concatenation of the listings. */
  lemma {:induction false} ListedAppend(a: seq<Command>, b: seq<Command>, edition: string)
    ensures Listed(a + b, edition) == Listed(a, edition) + Listed(b, edition)
    decreases |b|
  {
    if b == [] {
      assert a + b == a;
    } else {
      var init := b[..|b| - 1];
      assert (a + b)[..|a + b| - 1] == a + init;
      ListedAppend(a, init, edition);
    }
  }

  // ---------------------------------------------------------------------
  // One entry

  /** Every listed command's tokens can be kebab-cased. */
  predicate Printable(commands: seq<Command>, edition: string)
  {
    forall c :: c in commands && IsListed(c, edition) ==> TokensNonEmpty(c.name)
  }

  function KebabWords(name: seq<string>): (r: seq<string>)
    requires TokensNonEmpty(name)
    ensures |r| == |name|
    ensures forall i :: 0 <= i < |name| ==> r[i] == Kebab(name[i])
  {
    seq(|name|, i requires 0 <= i < |name| => Kebab(name[i]))
  }

  /**
   * The text between the quotes: for several tokens their kebab forms
   * separated by single spaces; for one token its kebab form trimmed; for
   * none, nothing.
   */
  function Entry(name: seq<string>): string
    requires TokensNonEmpty(name)
  {
    if |name| > 1 then Join(KebabWords(name), ' ')
    else if |name| == 1 then Trim(Kebab(name[0]))
    else ""
  }

  /**
   * An entry of several tokens splits back on spaces into the kebab forms of
   * the tokens, in order, when no token holds a space: single separators and
   * no trailing space.
   */
  lemma EntryWords(name: seq<string>)
    requires TokensNonEmpty(name) && |name| > 1
    requires forall i :: 0 <= i < |name| ==> ' ' !in name[i]
    ensures Split(Entry(name), ' ') == KebabWords(name)
  {
    var words := KebabWords(name);
    forall i | 0 <= i < |words| ensures ' ' !in words[i] {
      KebabAvoids(name[i], ' ');
    }
    SplitJoin(words, ' ');
  }

  /** A one-token entry is the kebab form itself when the token has no leading or trailing blank. */
  lemma EntrySingle(t: string)
    requires |t| > 0 && !IsTrimmable(t[0]) && !IsTrimmable(t[|t| - 1])
    ensures Entry([t]) == Kebab(t)
  {
    ConvertLast(t, '-');
    TrimClean(Kebab(t));
  }

  /** Builds one entry the way the step fills its `out` builder. */
  method FormatName(name: seq<string>) returns (entry: string)
    requires TokensNonEmpty(name)
    ensures entry == Entry(name)
  {
    var words := KebabWords(name);
    var out := "";
    for j := 0 to |name|
      invariant out == Terminated(words[..j], ' ')
    {
      var k := ToKebabCase(name[j]);
      assert words[..j + 1][..j] == words[..j];
      out := out + k + " ";
    }
    assert words[..|name|] == words;
    if |name| > 1 {
      var last := |out| - 1;
      DeleteTrailingSeparator(words, ' ');
      out := out[..last] + out[last + 1..];
      entry := out;
    } else {
      if |name| == 1 {
        assert words == [Kebab(name[0])];
        assert out == Kebab(name[0]) + " ";
        TrimTrailingSpace(Kebab(name[0]));
      }
      entry := Trim(out);
    }
  }

  /** Deleting the last character of the terminated words leaves their join. */
  lemma DeleteTrailingSeparator(words: seq<string>, sep: char)
    requires |words| > 0
    ensures var t := Terminated(words, sep);
      |t| > 0 && t[..|t| - 1] + t[|t|..] == Join(words, sep)
  {
    TerminatedIsJoin(words, sep);
  }

  // ---------------------------------------------------------------------
  // The JSON array

  function Quote(s: string): string
  {
    "\"" + s + "\""
  }

  /** Every command of a prefix of a printable catalog is printable. */
  lemma PrintablePrefix(commands: seq<Command>, k: nat, edition: string)
    requires Printable(commands, edition) && k <= |commands|
    ensures Printable(commands[..k], edition)
  {
    forall c | c in commands[..k] ensures c in commands {
      var i :| 0 <= i < k && commands[..k][i] == c;
      assert commands[i] == c;
    }
  }

  /** The quoted entries of the listed commands, in catalog order. */
  function Items(commands: seq<Command>, edition: string): (r: seq<string>)
    requires Printable(commands, edition)
    ensures |r| == |Listed(commands, edition)|
    decreases |commands|
  {
    if commands == [] then []
    else
      var init, last := commands[..|commands| - 1], commands[|commands| - 1];
      PrintablePrefix(commands, |commands| - 1, edition);
      Items(init, edition) + (if IsListed(last, edition) then [Quote(Entry(last.name))] else [])
  }

  /** The i-th item is the quoted entry of the i-th listed command. */
  lemma {:induction false} ItemsAt(commands: seq<Command>, edition: string, i: nat)
    requires Printable(commands, edition) && i < |Listed(commands, edition)|
    ensures TokensNonEmpty(Listed(commands, edition)[i].name)
    ensures Items(commands, edition)[i] == Quote(Entry(Listed(commands, edition)[i].name))
    decreases |commands|
  {
    var init, last := commands[..|commands| - 1], commands[|commands| - 1];
    PrintablePrefix(commands, |commands| - 1, edition);
    if i < |Listed(init, edition)| {
      ItemsAt(init, edition, i);
    } else {
      assert last in commands;
    }
  }

  /**
   * What the step writes for a list of quoted entries: the entries separated
   * by commas between brackets, except that with no entry at all the
   * deletion of the last character removes the opening bracket and leaves "]".
   */
  function JsonOf(items: seq<string>): string
  {
    if items == [] then "]" else "[" + Join(items, ',') + "]"
  }

  /** The output of the step for a catalog and an edition. */
  function Listing(commands: seq<Command>, edition: string): string
    requires Printable(commands, edition)
  {
    JsonOf(Items(commands, edition))
  }

  /** One more command of the catalog adds its quoted entry when it is listed. */
  lemma ItemsStep(commands: seq<Command>, k: nat, edition: string)
    requires Printable(commands, edition) && k < |commands|
    ensures Printable(commands[..k], edition) && Printable(commands[..k + 1], edition)
    ensures !IsListed(commands[k], edition) ==> Items(commands[..k + 1], edition) == Items(commands[..k], edition)
    ensures IsListed(commands[k], edition) ==>
      TokensNonEmpty(commands[k].name) &&
      Items(commands[..k + 1], edition) == Items(commands[..k], edition) + [Quote(Entry(commands[k].name))]
  {
    PrintablePrefix(commands, k, edition);
    PrintablePrefix(commands, k + 1, edition);
    assert commands[..k + 1][..k] == commands[..k];
    assert commands[k] in commands;
  }

  lemma TerminatedSnoc(words: seq<string>, w: string, sep: char)
    ensures Terminated(words + [w], sep) == Terminated(words, sep) + w + [sep]
  {
    assert (words + [w])[..|words|] == words;
  }

  /** The four tests that make the step `continue` past a command. */
  method Skipped(command: Command, edition: string) returns (skip: bool)
    ensures skip <==> !IsListed(command, edition)
  {
    var commandName := command.firstStepClass;
    if EqualsIgnoreCase(edition, "pro") && Contains(commandName, "liquibase.command.core") {
      return true;
    }
    if EqualsIgnoreCase(edition, "core") && Contains(commandName, "com.datical") {
      return true;
    }
    if command.name == CommandName || command.name == GenerateProtobuf.CommandName {
      return true;
    }
    if command.hidden {
      return true;
    }
    return false;
  }

  /** `json.append("\"").append(out).append("\"").append(",")` */
  method AppendEntry(json: string, out: string) returns (r: string)
    ensures r == json + Quote(out) + [',']
  {
    r := json + "\"" + out + "\"" + ",";
  }

  method Run(commands: seq<Command>, edition: string) returns (json: string)
    requires Printable(commands, edition)
    ensures json == Listing(commands, edition)
  {
    json := "[";
    for k := 0 to |commands|
      invariant Printable(commands[..k], edition)
      invariant json == "[" + Terminated(Items(commands[..k], edition), ',')
    {
      var command := commands[k];
      ItemsStep(commands, k, edition);
      var skip := Skipped(command, edition);
      if skip {
        continue;
      }
      var out := FormatName(command.name);
      ghost var done := Items(commands[..k], edition);
      assert Items(commands[..k + 1], edition) == done + [Quote(out)];
      OpenArraySnoc(done, Quote(out));
      json := AppendEntry(json, out);
    }
    assert commands[..|commands|] == commands;
    CloseArray(Items(commands, edition));
    var last := |json| - 1;
    json := json[..last] + json[last + 1..];
    json := json + "]";
  }

  /** The array text grows by one item and a comma. */
  lemma OpenArraySnoc(items: seq<string>, item: string)
    ensures "[" + Terminated(items + [item], ',') == "[" + Terminated(items, ',') + item + [',']
  {
    TerminatedSnoc(items, item, ',');
    AppendAssoc("[", Terminated(items, ','), item);
    AppendAssoc("[", Terminated(items, ',') + item, [',']);
  }

  /** Deleting the last character and appending ']' gives the listing text. */
  lemma CloseArray(items: seq<string>)
    ensures var json := "[" + Terminated(items, ',');
      |json| > 0 && json[..|json| - 1] + json[|json|..] + "]" == JsonOf(items)
  {
    if items != [] {
      TerminatedIsJoin(items, ',');
    }
  }

  /** With no surviving command the output is the single character ']'. */
  lemma EmptyListing(commands: seq<Command>, edition: string)
    requires forall c :: c in commands ==> !IsListed(c, edition)
    ensures Printable(commands, edition) && Listing(commands, edition) == "]"
  {
    if Listed(commands, edition) != [] {
      var c := Listed(commands, edition)[0];
      ListedMembers(commands, edition, c);
    }
  }

  /**
   * Otherwise the output is bracketed, and the text between the brackets
   * splits on commas into the quoted entries of the listed commands, in
   * catalog order, when no name token holds a comma.
   */
  lemma ListingEntries(commands: seq<Command>, edition: string)
    requires Printable(commands, edition)
    requires Listed(commands, edition) != []
    requires forall c :: c in commands && IsListed(c, edition) ==> forall i :: 0 <= i < |c.name| ==> ',' !in c.name[i]
    ensures var json := Listing(commands, edition);
      |json| >= 2 && json[0] == '[' && json[|json| - 1] == ']' &&
      Split(json[1..|json| - 1], ',') == Items(commands, edition)
  {
    var listed := Listed(commands, edition);
    var items := Items(commands, edition);
    forall j | 0 <= j < |items| ensures ',' !in items[j] {
      ItemsAt(commands, edition, j);
      var name := listed[j].name;
      assert listed[j] in listed;
      ListedMembers(commands, edition, listed[j]);
      EntryAvoids(name, ',');
    }
    SplitJoin(items, ',');
    var json := Listing(commands, edition);
    assert json[1..|json| - 1] == Join(items, ',');
  }

  /** A character that is not a letter, a blank or a separator reaches the entry only from the tokens. */
  lemma EntryAvoids(name: seq<string>, x: char)
    requires TokensNonEmpty(name)
    requires !IsLower(x) && !IsUpper(x) && x != '-' && x != ' ' && x != '"' && !IsTrimmable(x)
    requires forall i :: 0 <= i < |name| ==> x !in name[i]
    ensures x !in Quote(Entry(name))
  {
    var words := KebabWords(name);
    forall i | 0 <= i < |words| ensures x !in words[i] {
      KebabAvoids(name[i], x);
    }
    if |name| > 1 {
      JoinAvoids(words, ' ', x);
    } else if |name| == 1 {
      TrimInfix(Kebab(name[0]), x);
    }
  }

  lemma {:induction false} JoinAvoids(words: seq<string>, sep: char, x: char)
    requires |words| > 0 && x != sep
    requires forall i :: 0 <= i < |words| ==> x !in words[i]
    ensures x !in Join(words, sep)
    decreases |words|
  {
    if |words| > 1 {
      JoinAvoids(words[1..], sep, x);
    }
  }

  lemma TrimInfix(s: string, x: char)
    requires x !in s
    ensures x !in Trim(s)
  {
    var t := TrimEnd(s);
    forall k | 0 <= k < |t| ensures t[k] != x {
      assert t[k] == s[..|t|][k] == s[k];
    }
    var r := TrimStart(t);
    forall k | 0 <= k < |r| ensures r[k] != x {
      assert r[k] == t[|t| - |r|..][k] == t[|t| - |r| + k];
    }
  }

  // ---------------------------------------------------------------------
  // The empty listing

  /** The array the step evidently means to write: "[]" when nothing is listed. */
  function JsonArray(items: seq<string>): (r: string)
    ensures |r| >= 2 && r[0] == '[' && r[|r| - 1] == ']'
    ensures items == [] ==> r == "[]"
  {
    "[" + (if items == [] then "" else Join(items, ',')) + "]"
  }

  /** Between its brackets the array splits on commas into its items, when no item holds a comma. */
  lemma JsonArrayItems(items: seq<string>)
    requires items != []
    requires forall i :: 0 <= i < |items| ==> ',' !in items[i]
    ensures var r := JsonArray(items); Split(r[1..|r| - 1], ',') == items
  {
    SplitJoin(items, ',');
    var r := JsonArray(items);
    assert r[1..|r| - 1] == Join(items, ',');
  }

  /** The step's output agrees with the bracketed array except when nothing is listed, where it lacks the '['. */
  lemma JsonOfEmptyDiffers(items: seq<string>)
    ensures items != [] ==> JsonOf(items) == JsonArray(items)
    ensures items == [] ==> JsonOf(items) == "]" && JsonArray(items) == "[" + JsonOf(items)
  {
  }
}

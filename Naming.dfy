/**
 * The camel-case splitting that both `toSnakeCase` (separator '_') and
 * `toKebabCase` (separator '-') perform: the first character is lower-cased,
 * and every later upper-case character becomes the separator followed by its
 * lower-case form. Everything else is copied unchanged.
 */
module Naming {
  import opened JavaStrings

  /** What one character after the first contributes to the result. */
  function Mark(c: char, sep: char): string
  {
    if IsUpper(c) then [sep, ToLower(c)] else [c]
  }

  /** The characters after the first, converted one by one, in order. */
  function MarkAll(t: string, sep: char): string
    decreases |t|
  {
    if t == [] then [] else MarkAll(t[..|t| - 1], sep) + Mark(t[|t| - 1], sep)
  }

  function Convert(s: string, sep: char): string
    requires |s| > 0
  {
    [ToLower(s[0])] + MarkAll(s[1..], sep)
  }

  /** The result of `toSnakeCase`. */
  function Snake(s: string): string
    requires |s| > 0
  {
    Convert(s, '_')
  }

  /** The result of `toKebabCase`. */
  function Kebab(s: string): string
    requires |s| > 0
  {
    Convert(s, '-')
  }

  function UpperCount(t: string): nat
    decreases |t|
  {
    if t == [] then 0 else UpperCount(t[..|t| - 1]) + (if IsUpper(t[|t| - 1]) then 1 else 0)
  }

  predicate NoUpper(s: string)
  {
    forall i :: 0 <= i < |s| ==> !IsUpper(s[i])
  }

  /** Replaces every occurrence of `a` by `b`. */
  function Replace(s: string, a: char, b: char): string
    decreases |s|
  {
    if s == [] then [] else Replace(s[..|s| - 1], a, b) + [if s[|s| - 1] == a then b else s[|s| - 1]]
  }

  // ---------------------------------------------------------------------
  // The conversion works character by character

  /** Converting a concatenation converts each part in place. */
  lemma {:induction false} MarkAllAppend(t1: string, t2: string, sep: char)
    ensures MarkAll(t1 + t2, sep) == MarkAll(t1, sep) + MarkAll(t2, sep)
    decreases |t2|
  {
    if t2 == [] {
      assert t1 + t2 == t1;
    } else {
      var init := t2[..|t2| - 1];
      assert (t1 + t2)[..|t1 + t2| - 1] == t1 + init;
      MarkAllAppend(t1, init, sep);
    }
  }

  lemma MarkAllSingle(c: char, sep: char)
    ensures MarkAll([c], sep) == Mark(c, sep)
  {
    assert [c][..0] == [];
  }

  lemma MarkAllCons(c: char, t: string, sep: char)
    ensures MarkAll([c] + t, sep) == Mark(c, sep) + MarkAll(t, sep)
  {
    MarkAllAppend([c], t, sep);
    MarkAllSingle(c, sep);
  }

  /** Every upper-case character adds exactly one separator. */
  lemma {:induction false} MarkAllLength(t: string, sep: char)
    ensures |MarkAll(t, sep)| == |t| + UpperCount(t)
    decreases |t|
  {
    if t != [] {
      MarkAllLength(t[..|t| - 1], sep);
    }
  }

  /** |convert(s)| is |s| plus the number of upper-case characters after the first. */
  lemma ConvertLength(s: string, sep: char)
    requires |s| > 0
    ensures |Convert(s, sep)| == |s| + UpperCount(s[1..])
  {
    MarkAllLength(s[1..], sep);
  }

  /** The result starts with the lower case of s[0], even for a one-character input. */
  lemma ConvertFirst(s: string, sep: char)
    requires |s| > 0
    ensures |Convert(s, sep)| >= |s| && Convert(s, sep)[0] == ToLower(s[0])
  {
    ConvertLength(s, sep);
  }

  /**
   * The result starts with the lower case of s[0]; each later character s[i]
   * contributes Mark(s[i]) at offset i plus the number of upper-case
   * characters strictly between 0 and i.
   */
  lemma ConvertAt(s: string, sep: char, i: nat)
    requires 1 <= i < |s|
    ensures Convert(s, sep)[0] == ToLower(s[0])
    ensures var p := i + UpperCount(s[1..i]);
      p + |Mark(s[i], sep)| <= |Convert(s, sep)| &&
      Convert(s, sep)[p..p + |Mark(s[i], sep)|] == Mark(s[i], sep)
  {
    var before, rest := s[1..i], s[i + 1..];
    assert s[1..] == before + [s[i]] + rest;
    MarkAllAppend(before + [s[i]], rest, sep);
    MarkAllAppend(before, [s[i]], sep);
    MarkAllSingle(s[i], sep);
    MarkAllLength(before, sep);
    var head := [ToLower(s[0])] + MarkAll(before, sep);
    var m := Mark(s[i], sep);
    assert Convert(s, sep) == head + m + MarkAll(rest, sep);
    SliceOfMiddle(head, m, MarkAll(rest, sep));
  }

  lemma SliceOfMiddle(x: string, m: string, y: string)
    ensures (x + m + y)[|x|..|x| + |m|] == m
  {
  }

  /** The last character of the result is the lower case of s's last character. */
  lemma ConvertLast(s: string, sep: char)
    requires |s| > 0
    ensures var r := Convert(s, sep); |r| > 0 && r[|r| - 1] == ToLower(s[|s| - 1])
  {
    if |s| > 1 {
      assert s[1..][..|s[1..]| - 1] == s[1..|s| - 1];
    }
  }

  // ---------------------------------------------------------------------
  // Case: no upper case out, identity on lower case, idempotence

  lemma {:induction false} MarkAllNoUpper(t: string, sep: char)
    requires !IsUpper(sep)
    ensures NoUpper(MarkAll(t, sep))
    decreases |t|
  {
    if t != [] {
      MarkAllNoUpper(t[..|t| - 1], sep);
    }
  }

  /** With a separator that is not upper case, the result has no upper-case character. */
  lemma ConvertNoUpper(s: string, sep: char)
    requires |s| > 0 && !IsUpper(sep)
    ensures NoUpper(Convert(s, sep))
  {
    MarkAllNoUpper(s[1..], sep);
  }

  lemma {:induction false} MarkAllIdentity(t: string, sep: char)
    requires NoUpper(t)
    ensures MarkAll(t, sep) == t
    decreases |t|
  {
    if t != [] {
      MarkAllIdentity(t[..|t| - 1], sep);
    }
  }

  /** A string with no upper-case character is its own conversion. */
  lemma ConvertIdentity(s: string, sep: char)
    requires |s| > 0 && NoUpper(s)
    ensures Convert(s, sep) == s
  {
    MarkAllIdentity(s[1..], sep);
  }

  /** Converting twice is converting once. */
  lemma ConvertIdempotent(s: string, sep: char)
    requires |s| > 0 && !IsUpper(sep)
    ensures Convert(Convert(s, sep), sep) == Convert(s, sep)
  {
    ConvertNoUpper(s, sep);
    ConvertIdentity(Convert(s, sep), sep);
  }

  lemma SnakeIdempotent(s: string)
    requires |s| > 0
    ensures NoUpper(Snake(s)) && Snake(Snake(s)) == Snake(s)
  {
    ConvertNoUpper(s, '_');
    ConvertIdempotent(s, '_');
  }

  // ---------------------------------------------------------------------
  // Kebab case is snake case with dashes

  lemma {:induction false} ReplaceAppend(s1: string, s2: string, a: char, b: char)
    ensures Replace(s1 + s2, a, b) == Replace(s1, a, b) + Replace(s2, a, b)
    decreases |s2|
  {
    if s2 == [] {
      assert s1 + s2 == s1;
    } else {
      var init := s2[..|s2| - 1];
      assert (s1 + s2)[..|s1 + s2| - 1] == s1 + init;
      ReplaceAppend(s1, init, a, b);
    }
  }

  lemma {:induction false} MarkAllDashes(t: string)
    requires '_' !in t
    ensures Replace(MarkAll(t, '_'), '_', '-') == MarkAll(t, '-')
    decreases |t|
  {
    if t != [] {
      var init, c := t[..|t| - 1], t[|t| - 1];
      assert '_' !in init by {
        forall k | 0 <= k < |init| ensures init[k] != '_' {
          assert init[k] == t[k];
        }
      }
      MarkAllDashes(init);
      ReplaceAppend(MarkAll(init, '_'), Mark(c, '_'), '_', '-');
      if IsUpper(c) {
        assert Replace(['_', ToLower(c)], '_', '-') == ['-', ToLower(c)] by {
          assert ['_', ToLower(c)][..1] == ['_'];
          assert ['_'][..0] == [];
        }
      } else {
        assert [c][..0] == [];
      }
    }
  }

  /**
   * For a name without underscores, the kebab form is the snake form with each
   * '_' replaced by '-'.
   */
  lemma KebabIsSnakeWithDashes(s: string)
    requires |s| > 0 && '_' !in s
    ensures Replace(Snake(s), '_', '-') == Kebab(s)
  {
    assert '_' !in s[1..] by {
      forall k | 0 <= k < |s| - 1 ensures s[1..][k] != '_' {
        assert s[1..][k] == s[k + 1];
      }
    }
    MarkAllDashes(s[1..]);
    ReplaceAppend([ToLower(s[0])], MarkAll(s[1..], '_'), '_', '-');
    assert [ToLower(s[0])][..0] == [];
  }

  // ---------------------------------------------------------------------
  // Snake case loses nothing on lower-camel names

  /** Reference inverse: drops each '_' and upper-cases the character after it. */
  function Unsnake(s: string): string
    decreases |s|
  {
    if s == [] then []
    else if s[0] == '_' then (if |s| == 1 then [] else [ToUpper(s[1])] + Unsnake(s[2..]))
    else [s[0]] + Unsnake(s[1..])
  }

  lemma {:induction false} UnsnakeMarkAll(t: string)
    requires '_' !in t
    ensures Unsnake(MarkAll(t, '_')) == t
    decreases |t|
  {
    if t != [] {
      var c, rest := t[0], t[1..];
      assert t == [c] + rest;
      assert '_' !in rest by {
        forall k | 0 <= k < |rest| ensures rest[k] != '_' {
          assert rest[k] == t[k + 1];
        }
      }
      MarkAllCons(c, rest, '_');
      UnsnakeMarkAll(rest);
      var m := MarkAll(rest, '_');
      if IsUpper(c) {
        var w := ['_', ToLower(c)] + m;
        assert w[2..] == m;
        UpperOfLower(c);
      } else {
        assert ([c] + m)[1..] == m;
      }
    }
  }

  /**
   * A name that does not start with an upper-case letter and has no '_' is
   * recovered from its snake form.
   */
  lemma SnakeRoundTrip(s: string)
    requires |s| > 0 && !IsUpper(s[0]) && '_' !in s
    ensures Unsnake(Snake(s)) == s
  {
    assert '_' !in s[1..] by {
      forall k | 0 <= k < |s| - 1 ensures s[1..][k] != '_' {
        assert s[1..][k] == s[k + 1];
      }
    }
    UnsnakeMarkAll(s[1..]);
    var m := MarkAll(s[1..], '_');
    assert ([s[0]] + m)[1..] == m;
    assert s == [s[0]] + s[1..];
  }
}

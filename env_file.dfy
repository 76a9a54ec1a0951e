/**
 `strings.Split` with a one-character separator, and its inverse `Join`.
 */
module Fields {

  /** `strings.Index` for a one-character separator: where `c` first occurs in `s`. */
  function IndexOf(s: string, c: char): (i: nat)
    requires c in s
    ensures i < |s| && s[i] == c && c !in s[..i]
    decreases |s|
  {
    if s[0] == c then 0
    else
      assert s[1..] == s[1..] && forall k :: 1 <= k < |s| ==> s[k] == s[1..][k - 1];
      1 + IndexOf(s[1..], c)
  }

  /**
   `strings.Split(s, sep)`: the text before the first `sep` becomes a piece
   and the rest is split again, until no `sep` is left.
   */
  function Split(s: string, sep: char): (parts: seq<string>)
    ensures parts != []
    ensures forall k :: 0 <= k < |parts| ==> sep !in parts[k]
    decreases |s|
  {
    if sep !in s then [s]
    else
      var i := IndexOf(s, sep);
      [s[..i]] + Split(s[i + 1..], sep)
  }

  /** The pieces glued back together with `sep` between neighbours. */
  function Join(parts: seq<string>, sep: char): string
    requires parts != []
    decreases |parts|
  {
    if |parts| == 1 then parts[0]
    else parts[0] + [sep] + Join(parts[1..], sep)
  }

  /** `f` is the text of `s` from `start` up to the next `sep` or the end. */
  predicate FieldAt(s: string, start: nat, f: string, sep: char)
  {
    && start + |f| <= |s|
    && s[start..start + |f|] == f
    && sep !in f
    && (start + |f| == |s| || s[start + |f|] == sep)
  }

  /** Only one text runs from a given position to the next separator. */
  lemma FieldAtUnique(s: string, start: nat, f: string, g: string, sep: char)
    requires FieldAt(s, start, f, sep) && FieldAt(s, start, g, sep)
    ensures f == g
  {
  }

  /** There is one more piece than there are separators. */
  lemma {:induction false} SplitCount(s: string, sep: char)
    ensures |Split(s, sep)| == multiset(s)[sep] + 1
    decreases |s|
  {
    if sep in s {
      var i := IndexOf(s, sep);
      SplitCount(s[i + 1..], sep);
      assert s == s[..i] + [sep] + s[i + 1..];
      assert multiset(s[..i])[sep] == 0;
    } else {
      assert multiset(s)[sep] == 0;
    }
  }

  /** The first piece is the text before the first separator, or all of `s`. */
  lemma FirstField(s: string, sep: char)
    ensures FieldAt(s, 0, Split(s, sep)[0], sep)
  {
    if sep in s {
      var i := IndexOf(s, sep);
      assert Split(s, sep)[0] == s[..i];
    }
  }

  /**
   When there is a separator, there is a second piece: the text after the
   first separator up to the next one or the end.
   */
  lemma SecondField(s: string, sep: char)
    ensures sep in s <==> |Split(s, sep)| >= 2
    ensures sep in s ==> FieldAt(s, |Split(s, sep)[0]| + 1, Split(s, sep)[1], sep)
  {
    if sep in s {
      var i := IndexOf(s, sep);
      var rest := s[i + 1..];
      SplitUnfold(s, sep);
      FirstField(rest, sep);
      FieldAfterSeparator(s, i, Split(rest, sep)[0], sep);
    }
  }

  lemma SplitUnfold(s: string, sep: char)
    requires sep in s
    ensures Split(s, sep) == [s[..IndexOf(s, sep)]] + Split(s[IndexOf(s, sep) + 1..], sep)
  {
  }

  /** A field of the text after position `i` is a field of `s` at `i + 1`. */
  lemma FieldAfterSeparator(s: string, i: nat, f: string, sep: char)
    requires i < |s| && FieldAt(s[i + 1..], 0, f, sep)
    ensures FieldAt(s, i + 1, f, sep)
  {
    var rest := s[i + 1..];
    assert s[i + 1..i + 1 + |f|] == rest[..|f|];
    assert i + 1 + |f| < |s| ==> s[i + 1 + |f|] == rest[|f|];
  }

  /** Joining the pieces gives back the split text. */
  lemma {:induction false} JoinSplit(s: string, sep: char)
    ensures Join(Split(s, sep), sep) == s
    decreases |s|
  {
    if sep in s {
      var i := IndexOf(s, sep);
      JoinSplit(s[i + 1..], sep);
      assert s == s[..i] + [sep] + s[i + 1..];
    }
  }

  lemma SplitAfterField(p: string, rest: string, sep: char)
    requires sep !in p
    ensures Split(p + [sep] + rest, sep) == [p] + Split(rest, sep)
  {
    var s := p + [sep] + rest;
    assert s[|p|] == sep && s[..|p|] == p;
    var i := IndexOf(s, sep);
    assert i == |p|;
    assert s[i + 1..] == rest;
  }

  /** Splitting pieces that hold no separator after joining them gives the pieces back. */
  lemma {:induction false} SplitJoin(parts: seq<string>, sep: char)
    requires parts != []
    requires forall k :: 0 <= k < |parts| ==> sep !in parts[k]
    ensures Split(Join(parts, sep), sep) == parts
    decreases |parts|
  {
    if |parts| > 1 {
      SplitJoin(parts[1..], sep);
      SplitAfterField(parts[0], Join(parts[1..], sep), sep);
    }
  }
}

/**
 The secrets file loader `loadEnvFile`: every line is split at each `=`,
 field 0 becomes the name and field 1 the value of an environment variable.
 */
module EnvFile {
  import opened Fields

  /** The fields a line is read as, or the index error of a line without `=`. */
  datatype LineResult = Assignment(key: string, value: string) | TooFewFields

  /** How loading ended: every line applied, or the run stopped at a line without `=`. */
  datatype LoadOutcome = Loaded | IndexOutOfRange(lineIndex: nat)

  /**
   `strings.Split(line, "=")` followed by `[0]` and `[1]`: the name is the text
   before the first `=`, the value the text after it up to the second `=` or
   the end of the line.
   */
  function ParseLine(line: string): (r: LineResult)
    ensures r.TooFewFields? <==> '=' !in line
    ensures r.Assignment? ==>
      FieldAt(line, 0, r.key, '=') && FieldAt(line, |r.key| + 1, r.value, '=')
  {
    var fields := Split(line, '=');
    FirstField(line, '=');
    SecondField(line, '=');
    if |fields| < 2 then TooFewFields
    else Assignment(fields[0], fields[1])
  }

  /**
   `os.Setenv` accepts a non-empty name without `=` or NUL and a value
   without NUL; otherwise it reports an error and changes nothing.
   */
  predicate Settable(key: string, value: string)
  {
    key != [] && '=' !in key && '\0' !in key && '\0' !in value
  }

  /** The environment after `os.Setenv(key, value)`. */
  function SetVar(env: map<string, string>, key: string, value: string): map<string, string>
  {
    if Settable(key, value) then env[key := value] else env
  }

  /** Every line has an `=`, so no line stops the loader. */
  predicate WellFormed(lines: seq<string>)
  {
    forall j :: 0 <= j < |lines| ==> '=' in lines[j]
  }

  /** The index of the first line without `=`, or the number of lines if there is none. */
  function FirstMalformed(lines: seq<string>): (k: nat)
    ensures k <= |lines| && WellFormed(lines[..k])
    ensures k < |lines| ==> '=' !in lines[k]
    decreases |lines|
  {
    if lines == [] || '=' !in lines[0] then 0
    else
      var k := 1 + FirstMalformed(lines[1..]);
      assert forall j :: 1 <= j < k ==> lines[..k][j] == lines[1..][..k - 1][j - 1];
      k
  }

  /** The environment after the loop body has run on `line`. */
  function ApplyLine(env: map<string, string>, line: string): map<string, string>
    requires '=' in line
  {
    var r := ParseLine(line);
    SetVar(env, r.key, r.value)
  }

  /** The environment after the loop has run on `lines` in order. */
  function ApplyLines(env: map<string, string>, lines: seq<string>): map<string, string>
    requires WellFormed(lines)
    decreases |lines|
  {
    if lines == [] then env
    else ApplyLine(ApplyLines(env, lines[..|lines| - 1]), lines[|lines| - 1])
  }

  /** `line` sets `key` successfully. */
  predicate Sets(line: string, key: string)
  {
    var r := ParseLine(line);
    r.Assignment? && r.key == key && Settable(r.key, r.value)
  }

  /** A variable holds the value of the last line that set it. */
  lemma {:induction false} LastWriteWins(env: map<string, string>, lines: seq<string>, i: int, key: string)
    requires WellFormed(lines) && 0 <= i < |lines| && Sets(lines[i], key)
    requires forall j :: i < j < |lines| ==> !Sets(lines[j], key)
    ensures key in ApplyLines(env, lines)
    ensures ApplyLines(env, lines)[key] == ParseLine(lines[i]).value
    decreases |lines|
  {
    if i < |lines| - 1 {
      LastWriteWins(env, lines[..|lines| - 1], i, key);
    }
  }

  /** A variable that no line sets keeps its old value, or stays unset. */
  lemma {:induction false} UnsetKeysUnchanged(env: map<string, string>, lines: seq<string>, key: string)
    requires WellFormed(lines)
    requires forall j :: 0 <= j < |lines| ==> !Sets(lines[j], key)
    ensures key in ApplyLines(env, lines) <==> key in env
    ensures key in env ==> ApplyLines(env, lines)[key] == env[key]
    decreases |lines|
  {
    if lines != [] {
      UnsetKeysUnchanged(env, lines[..|lines| - 1], key);
    }
  }

  /** A line `KEY=VALUE` whose value holds no `=` assigns exactly VALUE to KEY. */
  lemma ParseSimpleLine(key: string, value: string)
    requires '=' !in key && '=' !in value
    ensures ParseLine(key + ['='] + value) == Assignment(key, value)
  {
    SplitAfterField(key, value, '=');
  }

  /** In `KEY=VALUE=REST` the value ends at the second `=`; REST is dropped. */
  lemma ParseLineDropsAfterSecondSeparator(key: string, value: string, rest: string)
    requires '=' !in key && '=' !in value
    ensures ParseLine(key + ['='] + value + ['='] + rest) == Assignment(key, value)
  {
    var tail := value + ['='] + rest;
    var line := key + ['='] + value + ['='] + rest;
    assert line == key + ['='] + tail;
    SplitAfterField(key, tail, '=');
    SplitAfterField(value, rest, '=');
    assert Split(line, '=')[0] == key && Split(line, '=')[1] == value;
  }

  /** A file of one line `KEY=VALUE` sets KEY to VALUE and changes nothing else. */
  lemma SingleLineFile(env: map<string, string>, key: string, value: string)
    requires '=' !in key && '=' !in value && Settable(key, value)
    ensures ApplyLines(env, [key + ['='] + value]) == env[key := value]
  {
    var line := key + ['='] + value;
    ParseSimpleLine(key, value);
    assert [line][..0] == [];
  }

  /** A secrets file holding `TOKEN=abc123` sets `TOKEN` to `abc123`. */
  lemma TokenLineExample()
    ensures ApplyLines(map[], ["TOKEN" + ['='] + "abc123"]) == map["TOKEN" := "abc123"]
  {
    SingleLineFile(map[], "TOKEN", "abc123");
  }

  /** A padded value is cut at its first `=`: `TOKEN=abc==` sets `TOKEN` to `abc`. */
  lemma PaddedValueExample()
    ensures ParseLine("TOKEN=abc==") == Assignment("TOKEN", "abc")
  {
    assert "TOKEN=abc==" == "TOKEN" + ['='] + "abc" + ['='] + "=";
    ParseLineDropsAfterSecondSeparator("TOKEN", "abc", "=");
  }

  /** The process environment, which the loader changes one variable at a time. */
  class Environment {
    var vars: map<string, string>

    constructor (initial: map<string, string>)
      ensures vars == initial
    {
      vars := initial;
    }

    /** `os.Setenv`; the result says whether the name and value were accepted. */
    method Setenv(key: string, value: string) returns (ok: bool)
      modifies this
      ensures ok <==> Settable(key, value)
      ensures vars == SetVar(old(vars), key, value)
    {
      ok := Settable(key, value);
      if ok {
        vars := vars[key := value];
      }
    }

    /**
     The scanner loop of `loadEnvFile` over the file's lines. A line without
     `=` stops it with an index error; the lines before it have been applied.
     */
    method LoadLines(lines: seq<string>) returns (outcome: LoadOutcome)
      modifies this
      ensures outcome == if FirstMalformed(lines) == |lines| then Loaded
                         else IndexOutOfRange(FirstMalformed(lines))
      ensures vars == ApplyLines(old(vars), lines[..FirstMalformed(lines)])
    {
      for i := 0 to |lines|
        invariant i <= FirstMalformed(lines)
        invariant vars == ApplyLines(old(vars), lines[..i])
      {
        var fields := ParseLine(lines[i]);
        if fields.TooFewFields? {
          return IndexOutOfRange(i);
        }
        // the error result of os.Setenv is dropped
        var _ := Setenv(fields.key, fields.value);
        assert lines[..i + 1][..i] == lines[..i];
      }
      return Loaded;
    }
  }
}

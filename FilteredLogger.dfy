/** PII redaction (0x00-personal_data/filtered_logger.py): `filter_datum`
    rewrites `re.sub(r'(f1|...|fn)=[^sep]+', r'\1=<redaction>', message)`.
    The substitution is modelled as the scanner the regular expression
    engine performs: at each position it tries the fields in list order,
    each needing `=` and at least one non-separator character after it;
    the first that fits is kept with its `=`, its maximal run of
    non-separator characters is replaced by the redaction, and scanning
    resumes after the run; where no field fits, one character is copied. */
module FilteredLogger {
  import opened Py

  /** The alternatives of the pattern's group: `"|".join([])` is empty,
      so an empty field list gives the single empty alternative. */
  function Alternatives(fields: seq<string>): (alts: seq<string>)
    ensures |alts| > 0
    ensures fields != [] ==> alts == fields
  {
    if fields == [] then [""] else fields
  }

  /** `field=` followed by at least one non-separator character starts `s`. */
  predicate MatchesAt(field: string, s: string, sep: char)
  {
    |s| > |field| + 1 && s[..|field|] == field && s[|field|] == '=' && s[|field| + 1] != sep
  }

  /** The first alternative, from index `from` on, that matches at the
      start of `s` (regular-expression alternation is ordered). */
  function FirstMatch(alts: seq<string>, s: string, sep: char, from: nat): (r: Option<nat>)
    requires from <= |alts|
    ensures r.Some? ==> from <= r.value < |alts| && MatchesAt(alts[r.value], s, sep)
    ensures r.Some? ==> forall j :: from <= j < r.value ==> !MatchesAt(alts[j], s, sep)
    ensures r.None? ==> forall j :: from <= j < |alts| ==> !MatchesAt(alts[j], s, sep)
    decreases |alts| - from
  {
    if from == |alts| then None
    else if MatchesAt(alts[from], s, sep) then Some(from)
    else FirstMatch(alts, s, sep, from + 1)
  }

  /** The length of the longest prefix of `s` free of the separator: the
      greedy `[^sep]+`. */
  function RunLength(s: string, sep: char): (n: nat)
    ensures n <= |s|
    ensures sep !in s[..n]
    ensures n == |s| || s[n] == sep
    decreases |s|
  {
    if s == [] || s[0] == sep then 0
    else
      var n := RunLength(s[1..], sep);
      assert s[..n + 1] == [s[0]] + s[1..][..n];
      1 + n
  }

  /** What follows the value run of a match of `field` at the start of
      `s`: empty, or starting with the separator. */
  function After(field: string, s: string, sep: char): (rest: string)
    requires |field| + 1 <= |s|
    ensures |rest| < |s|
    ensures rest == [] || rest[0] == sep
  {
    var n := RunLength(s[|field| + 1..], sep);
    assert |field| + 1 + n == |s| || s[|field| + 1 + n] == s[|field| + 1..][n];
    s[|field| + 1 + n..]
  }

  /** The left-to-right, non-overlapping substitution. */
  function Substitute(alts: seq<string>, redaction: string, s: string, sep: char): (r: string)
    ensures s != [] ==> r != [] && r[0] == s[0]
    decreases |s|
  {
    if s == [] then []
    else
      match FirstMatch(alts, s, sep, 0)
      case None => [s[0]] + Substitute(alts, redaction, s[1..], sep)
      case Some(k) => alts[k] + "=" + redaction + Substitute(alts, redaction, After(alts[k], s, sep), sep)
  }

  /** `filter_datum(fields, redaction, message, separator)`. A message
      without `=` has nothing the pattern can match. */
  function FilterDatum(fields: seq<string>, redaction: string, message: string, separator: char): (r: string)
    ensures '=' !in message ==> r == message
  {
    assert '=' !in message ==> Substitute(Alternatives(fields), redaction, message, separator) == message by {
      if '=' !in message {
        SubstituteWithoutEquals(Alternatives(fields), redaction, message, separator);
      }
    }
    Substitute(Alternatives(fields), redaction, message, separator)
  }

  /** The redacting part of `RedactingFormatter.format`: `filter_datum`
      with the class constants `REDACTION = "***"` and `SEPERATOR = ";"`. */
  function RedactMessage(fields: seq<string>, message: string): string
  {
    FilterDatum(fields, "***", message, ';')
  }

  /** No listed field followed by `=` and a value starts anywhere in `s`. */
  ghost predicate NoMatchIn(alts: seq<string>, s: string, sep: char)
  {
    forall i :: 0 <= i < |s| ==> FirstMatch(alts, s[i..], sep, 0).None?
  }

  /** A message with no listed field followed by `=` and a value is
      returned unchanged. */
  lemma {:induction false} SubstituteWithoutMatch(alts: seq<string>, redaction: string, s: string, sep: char)
    requires NoMatchIn(alts, s, sep)
    ensures Substitute(alts, redaction, s, sep) == s
    decreases |s|
  {
    if s != [] {
      assert s[0..] == s;
      assert NoMatchIn(alts, s[1..], sep) by {
        forall i | 0 <= i < |s[1..]| ensures FirstMatch(alts, s[1..][i..], sep, 0).None? {
          assert s[1..][i..] == s[i + 1..];
        }
      }
      SubstituteWithoutMatch(alts, redaction, s[1..], sep);
    }
  }

  /** No alternative contains `=` (true of plain field names). */
  predicate NoEquals(alts: seq<string>)
  {
    forall k :: 0 <= k < |alts| ==> '=' !in alts[k]
  }

  /** `a` and `b` are equal up to and including an `=` at index `q`, and
      both go on with a non-separator character. */
  ghost predicate AgreeThrough(a: string, b: string, q: nat, sep: char)
  {
    q + 1 < |a| && q + 1 < |b| && a[..q + 1] == b[..q + 1]
    && a[q] == '=' && a[q + 1] != sep && b[q + 1] != sep
  }

  lemma {:induction false} MatchesAtWhenAgree(field: string, a: string, b: string, q: nat, sep: char)
    requires AgreeThrough(a, b, q, sep) && '=' !in field
    ensures MatchesAt(field, a, sep) <==> MatchesAt(field, b, sep)
  {
    var m := |field|;
    if m < q {
      assert a[..m] == a[..q + 1][..m] && b[..m] == b[..q + 1][..m];
      assert a[m] == a[..q + 1][m] && b[m] == b[..q + 1][m];
      assert a[m + 1] == a[..q + 1][m + 1] && b[m + 1] == b[..q + 1][m + 1];
    } else if m == q {
      assert a[..m] == a[..q + 1][..m] && b[..m] == b[..q + 1][..m];
    } else {
      // `field` would have to hold the `=` at index `q`
      assert a[q] == a[..q + 1][q] == b[..q + 1][q] == b[q];
    }
  }

  /** The first matching alternative is decided by the text up to the
      first character after an `=`. */
  lemma {:induction false} FirstMatchWhenAgree(alts: seq<string>, a: string, b: string, q: nat, sep: char)
    requires AgreeThrough(a, b, q, sep) && NoEquals(alts)
    ensures FirstMatch(alts, a, sep, 0) == FirstMatch(alts, b, sep, 0)
  {
    forall k | 0 <= k < |alts|
      ensures MatchesAt(alts[k], a, sep) <==> MatchesAt(alts[k], b, sep)
    {
      MatchesAtWhenAgree(alts[k], a, b, q, sep);
    }
  }

  /** The result equals the input, or both agree up to and including
      some `=` and both go on with a non-separator character there. */
  lemma {:induction false} SubstituteKeepsPrefix(alts: seq<string>, redaction: string, s: string, sep: char)
    requires redaction != [] && sep !in redaction
    ensures Substitute(alts, redaction, s, sep) == s
         || exists q: nat :: AgreeThrough(s, Substitute(alts, redaction, s, sep), q, sep)
    decreases |s|
  {
    if s != [] {
      var r := Substitute(alts, redaction, s, sep);
      match FirstMatch(alts, s, sep, 0)
      case None =>
        var t := Substitute(alts, redaction, s[1..], sep);
        assert r == [s[0]] + t;
        SubstituteKeepsPrefix(alts, redaction, s[1..], sep);
        if t == s[1..] {
          assert r == s;
        } else {
          var q: nat :| AgreeThrough(s[1..], t, q, sep);
          assert s[..q + 2] == [s[0]] + s[1..][..q + 1];
          assert r[..q + 2] == [s[0]] + t[..q + 1];
          assert AgreeThrough(s, r, q + 1, sep);
        }
      case Some(k) =>
        var field := alts[k];
        var m := |field|;
        var t := Substitute(alts, redaction, After(field, s, sep), sep);
        assert r == field + "=" + redaction + t;
        assert r[..m + 1] == field + "=";
        assert s[..m + 1] == s[..m] + [s[m]];
        assert r[m + 1] == redaction[0];
        assert AgreeThrough(s, r, m, sep);
    }
  }

  /** After a redaction, the run of non-separators is the redaction itself
      when what follows is empty or starts with the separator. */
  lemma {:induction false} RunLengthOfRedaction(redaction: string, t: string, sep: char)
    requires sep !in redaction
    requires t == [] || t[0] == sep
    ensures RunLength(redaction + t, sep) == |redaction|
    decreases |redaction|
  {
    if redaction == [] {
      assert redaction + t == t;
    } else {
      assert (redaction + t)[1..] == redaction[1..] + t;
      RunLengthOfRedaction(redaction[1..], t, sep);
    }
  }

  /** In the second pass, the value run after `field=` is the redaction,
      and what follows it is the first pass's remainder. */
  lemma {:induction false} SecondPassRemainder(field: string, redaction: string, t: string, sep: char)
    requires sep !in redaction && (t == [] || t[0] == sep)
    ensures After(field, field + "=" + redaction + t, sep) == t
  {
    var o := field + "=" + redaction + t;
    assert o[|field| + 1..] == redaction + t;
    RunLengthOfRedaction(redaction, t, sep);
    assert o[|field| + 1 + |redaction|..] == (redaction + t)[|redaction|..];
  }

  /** Substitution does not change which alternative matches first at
      the start. */
  lemma {:induction false} SubstituteKeepsFirstMatch(alts: seq<string>, redaction: string, s: string, sep: char)
    requires redaction != [] && sep !in redaction && NoEquals(alts)
    ensures FirstMatch(alts, Substitute(alts, redaction, s, sep), sep, 0) == FirstMatch(alts, s, sep, 0)
  {
    var o := Substitute(alts, redaction, s, sep);
    SubstituteKeepsPrefix(alts, redaction, s, sep);
    if o != s {
      var q: nat :| AgreeThrough(s, o, q, sep);
      FirstMatchWhenAgree(alts, s, o, q, sep);
    }
  }

  /** Substitution at a position where alternative `k` matches, whose
      value run ends where `rest` starts. */
  lemma {:induction false} SubstituteAtMatch(alts: seq<string>, redaction: string, s: string, sep: char, k: nat, rest: string)
    requires s != [] && FirstMatch(alts, s, sep, 0) == Some(k)
    requires rest == After(alts[k], s, sep)
    ensures Substitute(alts, redaction, s, sep) == alts[k] + "=" + redaction + Substitute(alts, redaction, rest, sep)
  {
  }

  /** One step of the idempotence proof at a position where a field
      matches: the second pass matches the same field, replaces exactly
      the redaction, and goes on with the first pass's remainder. */
  lemma {:induction false} SecondPassAtMatch(alts: seq<string>, redaction: string, s: string, sep: char, k: nat, rest: string)
    requires redaction != [] && sep !in redaction && NoEquals(alts)
    requires s != [] && FirstMatch(alts, s, sep, 0) == Some(k)
    requires rest == After(alts[k], s, sep)
    ensures Substitute(alts, redaction, Substitute(alts, redaction, s, sep), sep)
         == alts[k] + "=" + redaction + Substitute(alts, redaction, Substitute(alts, redaction, rest, sep), sep)
  {
    var field := alts[k];
    var t := Substitute(alts, redaction, rest, sep);
    var o := Substitute(alts, redaction, s, sep);
    SubstituteAtMatch(alts, redaction, s, sep, k, rest);
    assert o == field + "=" + redaction + t;
    SubstituteKeepsFirstMatch(alts, redaction, s, sep);
    SecondPassRemainder(field, redaction, t, sep);
    SubstituteAtMatch(alts, redaction, o, sep, k, t);
  }

  /** Idempotence: redacting an already redacted message changes nothing,
      provided the redaction is non-empty and holds no separator, and no
      field name holds `=`. */
  lemma {:induction false} SubstituteIdempotent(alts: seq<string>, redaction: string, s: string, sep: char)
    requires redaction != [] && sep !in redaction && NoEquals(alts)
    ensures Substitute(alts, redaction, Substitute(alts, redaction, s, sep), sep) == Substitute(alts, redaction, s, sep)
    decreases |s|
  {
    if s != [] {
      match FirstMatch(alts, s, sep, 0)
      case None =>
        var o := Substitute(alts, redaction, s, sep);
        var t := Substitute(alts, redaction, s[1..], sep);
        SubstituteKeepsFirstMatch(alts, redaction, s, sep);
        assert o == [s[0]] + t;
        assert o[1..] == t;
        SubstituteIdempotent(alts, redaction, s[1..], sep);
      case Some(k) =>
        var rest := After(alts[k], s, sep);
        SubstituteAtMatch(alts, redaction, s, sep, k, rest);
        SecondPassAtMatch(alts, redaction, s, sep, k, rest);
        SubstituteIdempotent(alts, redaction, rest, sep);
    }
  }

  /** `filter_datum` is idempotent for plain field names and a non-empty
      redaction without the separator. */
  lemma FilterDatumIdempotent(fields: seq<string>, redaction: string, message: string, separator: char)
    requires redaction != [] && separator !in redaction
    requires forall k :: 0 <= k < |fields| ==> '=' !in fields[k]
    ensures FilterDatum(fields, redaction, FilterDatum(fields, redaction, message, separator), separator)
         == FilterDatum(fields, redaction, message, separator)
  {
    SubstituteIdempotent(Alternatives(fields), redaction, message, separator);
  }

  /** No alternative contains the separator. */
  predicate NoSeparator(alts: seq<string>, sep: char)
  {
    forall k :: 0 <= k < |alts| ==> sep !in alts[k]
  }

  lemma {:induction false} MatchesAtBeforeSeparator(field: string, x: string, y: string, sep: char)
    requires sep != '=' && sep !in field
    ensures MatchesAt(field, x + [sep] + y, sep) <==> MatchesAt(field, x, sep)
  {
    var s := x + [sep] + y;
    var m := |field|;
    if m + 1 < |x| {
      assert s[..m] == x[..m];
    } else if m + 1 == |x| {
      assert s[m + 1] == sep;
    } else if m == |x| {
      assert s[m] == sep;
    } else if |s| > m + 1 {
      assert s[..m][|x|] == sep;
      assert field[|x|] != sep;
    }
  }

  /** No alternative matches at a separator. */
  lemma {:induction false} NoMatchAtSeparator(alts: seq<string>, y: string, sep: char)
    requires sep != '=' && NoSeparator(alts, sep)
    ensures FirstMatch(alts, [sep] + y, sep, 0).None?
  {
    var s := [sep] + y;
    forall k | 0 <= k < |alts| ensures !MatchesAt(alts[k], s, sep) {
      MatchesAtBeforeSeparator(alts[k], [], y, sep);
      assert [] + [sep] + y == s;
    }
  }

  lemma {:induction false} FirstMatchBeforeSeparator(alts: seq<string>, x: string, y: string, sep: char)
    requires sep != '=' && NoSeparator(alts, sep)
    ensures FirstMatch(alts, x + [sep] + y, sep, 0) == FirstMatch(alts, x, sep, 0)
  {
    forall k | 0 <= k < |alts|
      ensures MatchesAt(alts[k], x + [sep] + y, sep) <==> MatchesAt(alts[k], x, sep)
    {
      MatchesAtBeforeSeparator(alts[k], x, y, sep);
    }
  }

  lemma {:induction false} RunLengthBeforeSeparator(z: string, y: string, sep: char)
    ensures RunLength(z + [sep] + y, sep) == RunLength(z, sep)
    decreases |z|
  {
    if z == [] {
      assert (z + [sep] + y)[0] == sep;
    } else {
      assert (z + [sep] + y)[0] == z[0];
      assert (z + [sep] + y)[1..] == z[1..] + [sep] + y;
      RunLengthBeforeSeparator(z[1..], y, sep);
    }
  }

  /** Substitution where nothing matches at the start. */
  lemma {:induction false} SubstituteAtNoMatch(alts: seq<string>, redaction: string, s: string, sep: char)
    requires s != [] && FirstMatch(alts, s, sep, 0).None?
    ensures Substitute(alts, redaction, s, sep) == [s[0]] + Substitute(alts, redaction, s[1..], sep)
  {
  }

  /** A match before a separator ends before it, in `x` alone and in
      `x + [sep] + y` alike. */
  lemma {:induction false} RemainderBeforeSeparator(alts: seq<string>, x: string, y: string, sep: char, k: nat, rest: string)
    requires k < |alts| && |alts[k]| + 1 <= |x|
    requires rest == After(alts[k], x, sep)
    ensures After(alts[k], x + [sep] + y, sep) == rest + [sep] + y
  {
    var s := x + [sep] + y;
    var m := |alts[k]|;
    var n := RunLength(x[m + 1..], sep);
    assert s[m + 1..] == x[m + 1..] + [sep] + y;
    RunLengthBeforeSeparator(x[m + 1..], y, sep);
    assert s[m + 1 + n..] == rest + [sep] + y;
  }

  /** A match in `x` is also the match in `x + [sep] + y`, and its redacted
      run stops at that separator. */
  lemma {:induction false} SubstituteAtMatchBeforeSeparator(alts: seq<string>, redaction: string, x: string, y: string, sep: char, k: nat, rest: string)
    requires sep != '=' && NoSeparator(alts, sep)
    requires x != [] && FirstMatch(alts, x, sep, 0) == Some(k)
    requires rest == After(alts[k], x, sep)
    ensures Substitute(alts, redaction, x + [sep] + y, sep)
         == alts[k] + "=" + redaction + Substitute(alts, redaction, rest + [sep] + y, sep)
  {
    FirstMatchBeforeSeparator(alts, x, y, sep);
    RemainderBeforeSeparator(alts, x, y, sep, k, rest);
    SubstituteAtMatch(alts, redaction, x + [sep] + y, sep, k, rest + [sep] + y);
  }

  lemma {:induction false} SplitStepAtMatch(alts: seq<string>, redaction: string, x: string, y: string, sep: char, k: nat, rest: string)
    requires sep != '=' && NoSeparator(alts, sep)
    requires x != [] && FirstMatch(alts, x, sep, 0) == Some(k)
    requires rest == After(alts[k], x, sep)
    requires Substitute(alts, redaction, rest + [sep] + y, sep)
          == Substitute(alts, redaction, rest, sep) + [sep] + Substitute(alts, redaction, y, sep)
    ensures Substitute(alts, redaction, x + [sep] + y, sep)
         == Substitute(alts, redaction, x, sep) + [sep] + Substitute(alts, redaction, y, sep)
  {
    SubstituteAtMatchBeforeSeparator(alts, redaction, x, y, sep, k, rest);
    SubstituteAtMatch(alts, redaction, x, sep, k, rest);
    var head := alts[k] + "=" + redaction;
    var tail := Substitute(alts, redaction, rest, sep);
    var after := Substitute(alts, redaction, y, sep);
    calc {
      Substitute(alts, redaction, x + [sep] + y, sep);
      head + Substitute(alts, redaction, rest + [sep] + y, sep);
      head + (tail + [sep] + after);
      { Associate(head, tail, [sep], after); }
      (head + tail) + [sep] + after;
      Substitute(alts, redaction, x, sep) + [sep] + after;
    }
  }

  lemma Associate(a: string, b: string, c: string, d: string)
    ensures a + (b + c + d) == (a + b) + c + d
  {
  }

  lemma {:induction false} SplitStepAtNoMatch(alts: seq<string>, redaction: string, x: string, y: string, sep: char)
    requires sep != '=' && NoSeparator(alts, sep)
    requires x != [] && FirstMatch(alts, x, sep, 0).None?
    requires Substitute(alts, redaction, x[1..] + [sep] + y, sep)
          == Substitute(alts, redaction, x[1..], sep) + [sep] + Substitute(alts, redaction, y, sep)
    ensures Substitute(alts, redaction, x + [sep] + y, sep)
         == Substitute(alts, redaction, x, sep) + [sep] + Substitute(alts, redaction, y, sep)
  {
    var s := x + [sep] + y;
    FirstMatchBeforeSeparator(alts, x, y, sep);
    assert s[0] == x[0] && s[1..] == x[1..] + [sep] + y;
    SubstituteAtNoMatch(alts, redaction, s, sep);
    SubstituteAtNoMatch(alts, redaction, x, sep);
  }

  /** Matches never span a separator: the fields around each separator
      are redacted independently, and the separator is kept. */
  lemma {:induction false} SubstituteSplitsAtSeparator(alts: seq<string>, redaction: string, x: string, y: string, sep: char)
    requires sep != '=' && NoSeparator(alts, sep)
    ensures Substitute(alts, redaction, x + [sep] + y, sep)
         == Substitute(alts, redaction, x, sep) + [sep] + Substitute(alts, redaction, y, sep)
    decreases |x|
  {
    if x == [] {
      var s := x + [sep] + y;
      NoMatchAtSeparator(alts, y, sep);
      assert s == [sep] + y && s[1..] == y;
      SubstituteAtNoMatch(alts, redaction, s, sep);
    } else {
      match FirstMatch(alts, x, sep, 0)
      case None =>
        SubstituteSplitsAtSeparator(alts, redaction, x[1..], y, sep);
        SplitStepAtNoMatch(alts, redaction, x, y, sep);
      case Some(k) =>
        var rest := After(alts[k], x, sep);
        SubstituteSplitsAtSeparator(alts, redaction, rest, y, sep);
        SplitStepAtMatch(alts, redaction, x, y, sep, k, rest);
    }
  }

  /** One `key=value` field of a log line. */
  datatype Entry = Entry(key: string, value: string)

  /** A log line `k1=v1;k2=v2;...;`, each field closed by the separator. */
  function Record(entries: seq<Entry>, sep: char): string
  {
    if entries == [] then []
    else entries[0].key + "=" + entries[0].value + [sep] + Record(entries[1..], sep)
  }

  /** No `=` and no separator in `s`. */
  predicate PlainText(s: string, sep: char)
  {
    forall i :: 0 <= i < |s| ==> s[i] != '=' && s[i] != sep
  }

  /** Neither key nor value holds `=` or the separator. */
  predicate PlainEntry(e: Entry, sep: char)
  {
    PlainText(e.key, sep) && PlainText(e.value, sep)
  }

  /** Some alternative ends `key`: the pattern is not anchored, so a field
      also matches the tail of a longer key (`name` inside `username`). */
  predicate EndsWithField(alts: seq<string>, key: string)
  {
    exists k :: 0 <= k < |alts| && IsSuffix(alts[k], key)
  }

  predicate IsSuffix(field: string, key: string)
  {
    |field| <= |key| && key[|key| - |field|..] == field
  }

  /** What redaction does to one field: a non-empty value behind a key
      that ends with a listed field is replaced. */
  function RedactEntry(alts: seq<string>, redaction: string, e: Entry): Entry
  {
    if e.value != [] && EndsWithField(alts, e.key) then Entry(e.key, redaction) else e
  }

  /** Every field of a line, redacted on its own. */
  function RedactEntries(alts: seq<string>, redaction: string, entries: seq<Entry>): seq<Entry>
  {
    seq(|entries|, i requires 0 <= i < |entries| => RedactEntry(alts, redaction, entries[i]))
  }

  /** A key that is itself a listed field has its non-empty value
      replaced. */
  lemma ListedEntryRedacted(alts: seq<string>, redaction: string, e: Entry, k: nat)
    requires k < |alts| && alts[k] == e.key && e.value != []
    ensures RedactEntry(alts, redaction, e) == Entry(e.key, redaction)
  {
    assert e.key[|e.key| - |alts[k]|..] == e.key;
  }

  /** A match needs an `=` right behind the field. */
  lemma NoMatchWithoutEquals(alts: seq<string>, t: string, sep: char)
    requires '=' !in t
    ensures FirstMatch(alts, t, sep, 0).None?
  {
  }

  /** Text without `=` is never rewritten. */
  lemma {:induction false} SubstituteWithoutEquals(alts: seq<string>, redaction: string, s: string, sep: char)
    requires '=' !in s
    ensures Substitute(alts, redaction, s, sep) == s
  {
    forall i | 0 <= i < |s| ensures FirstMatch(alts, s[i..], sep, 0).None? {
      NoMatchWithoutEquals(alts, s[i..], sep);
    }
    SubstituteWithoutMatch(alts, redaction, s, sep);
  }

  /** At the start of `key=value` exactly the key itself matches, and only
      when a value follows. */
  lemma {:induction false} MatchesEntry(field: string, key: string, value: string, sep: char)
    requires '=' !in key && '=' !in value && sep !in value
    ensures MatchesAt(field, key + "=" + value, sep) <==> field == key && value != []
  {
    var s := key + "=" + value;
    forall j | 0 <= j < |s| ensures s[j] == '=' <==> j == |key| {
      if j < |key| {
        assert s[j] == key[j];
      } else if j > |key| {
        assert s[j] == value[j - |key| - 1];
      }
    }
    assert s[..|key|] == key;
    if field == key && value != [] {
      assert s[|key| + 1] == value[0];
    }
  }

  lemma {:induction false} FirstMatchOnEntry(alts: seq<string>, key: string, value: string, sep: char)
    requires '=' !in key && '=' !in value && sep !in value
    ensures FirstMatch(alts, key + "=" + value, sep, 0).Some? <==> key in alts && value != []
    ensures FirstMatch(alts, key + "=" + value, sep, 0).Some? ==> alts[FirstMatch(alts, key + "=" + value, sep, 0).value] == key
  {
    var s := key + "=" + value;
    forall j | 0 <= j < |alts| ensures MatchesAt(alts[j], s, sep) <==> alts[j] == key && value != [] {
      MatchesEntry(alts[j], key, value, sep);
    }
  }

  /** Dropping the first character of a key keeps every proper suffix. */
  lemma {:induction false} EndsWithFieldStep(alts: seq<string>, key: string)
    requires key != []
    ensures EndsWithField(alts, key) <==> key in alts || EndsWithField(alts, key[1..])
  {
    var tail := key[1..];
    forall k | 0 <= k < |alts| && |alts[k]| < |key|
      ensures key[|key| - |alts[k]|..] == tail[|tail| - |alts[k]|..]
    {
    }
    if EndsWithField(alts, key) {
      var k :| 0 <= k < |alts| && |alts[k]| <= |key| && key[|key| - |alts[k]|..] == alts[k];
      if |alts[k]| == |key| {
        assert key[0..] == key;
      }
    }
    if key in alts {
      var k :| 0 <= k < |alts| && alts[k] == key;
      assert key[|key| - |alts[k]|..] == key;
    }
  }

  /** A key that is itself a listed field, with a value behind it. */
  lemma {:induction false} EntryRedacted(alts: seq<string>, redaction: string, key: string, value: string, sep: char, k: nat)
    requires value != [] && sep !in value
    requires FirstMatch(alts, key + "=" + value, sep, 0) == Some(k) && alts[k] == key
    ensures Substitute(alts, redaction, key + "=" + value, sep) == key + "=" + redaction
  {
    var s := key + "=" + value;
    assert s[|key| + 1..] == value;
    assert s[|key| + 1 + |value|..] == [];
    SubstituteAtMatch(alts, redaction, s, sep, k, []);
  }

  lemma {:induction false} EntryEmptyKey(alts: seq<string>, redaction: string, value: string, sep: char)
    requires '=' !in value && FirstMatch(alts, "=" + value, sep, 0).None?
    ensures Substitute(alts, redaction, "=" + value, sep) == "=" + value
  {
    var s := "=" + value;
    SubstituteAtNoMatch(alts, redaction, s, sep);
    assert s[1..] == value;
    SubstituteWithoutEquals(alts, redaction, value, sep);
  }

  lemma {:induction false} EntrySkip(alts: seq<string>, redaction: string, key: string, value: string, sep: char)
    requires key != [] && FirstMatch(alts, key + "=" + value, sep, 0).None?
    ensures Substitute(alts, redaction, key + "=" + value, sep)
         == [key[0]] + Substitute(alts, redaction, key[1..] + "=" + value, sep)
  {
    var s := key + "=" + value;
    SubstituteAtNoMatch(alts, redaction, s, sep);
    assert s[1..] == key[1..] + "=" + value;
  }

  /** The key-by-key step: a key that is not itself a listed field behaves
      as its tail does. */
  lemma {:induction false} EntryStep(alts: seq<string>, redaction: string, key: string, value: string, sep: char)
    requires '=' !in key && '=' !in value && sep !in value
    requires key != [] && !(key in alts && value != [])
    requires Substitute(alts, redaction, key[1..] + "=" + value, sep)
          == if value != [] && EndsWithField(alts, key[1..]) then key[1..] + "=" + redaction else key[1..] + "=" + value
    ensures Substitute(alts, redaction, key + "=" + value, sep)
         == if value != [] && EndsWithField(alts, key) then key + "=" + redaction else key + "=" + value
  {
    FirstMatchOnEntry(alts, key, value, sep);
    EntrySkip(alts, redaction, key, value, sep);
    if value != [] && EndsWithField(alts, key[1..]) {
      EndsWithFieldStep(alts, key);
      Prepend(key, redaction);
    } else {
      EndsWithFieldStep(alts, key);
      Prepend(key, value);
    }
  }

  lemma Prepend(key: string, value: string)
    requires key != []
    ensures [key[0]] + (key[1..] + "=" + value) == key + "=" + value
  {
    assert key == [key[0]] + key[1..];
  }

  /** One field `key=value`: its value is redacted exactly when the key ends
      with a listed field and the value is not empty; otherwise the field
      comes back unchanged. */
  lemma {:induction false} SubstituteEntry(alts: seq<string>, redaction: string, key: string, value: string, sep: char)
    requires '=' !in key && '=' !in value && sep !in value
    ensures Substitute(alts, redaction, key + "=" + value, sep)
         == if value != [] && EndsWithField(alts, key) then key + "=" + redaction else key + "=" + value
    decreases |key|
  {
    FirstMatchOnEntry(alts, key, value, sep);
    if key in alts && value != [] {
      var k := FirstMatch(alts, key + "=" + value, sep, 0).value;
      EntryRedacted(alts, redaction, key, value, sep, k);
      assert key[|key| - |alts[k]|..] == alts[k];
    } else if key == [] {
      EntryEmptyKey(alts, redaction, value, sep);
      assert !EndsWithField(alts, key) || value == [];
    } else {
      SubstituteEntry(alts, redaction, key[1..], value, sep);
      EntryStep(alts, redaction, key, value, sep);
    }
  }

  /** A whole log line is redacted field by field: filter_datum agrees with
      `RedactEntries` on every line of plain `key=value;` fields. */
  lemma {:induction false} SubstituteRecord(alts: seq<string>, redaction: string, entries: seq<Entry>, sep: char)
    requires sep != '=' && NoSeparator(alts, sep)
    requires forall i :: 0 <= i < |entries| ==> PlainEntry(entries[i], sep)
    ensures Substitute(alts, redaction, Record(entries, sep), sep) == Record(RedactEntries(alts, redaction, entries), sep)
    decreases |entries|
  {
    if entries != [] {
      var e := entries[0];
      var line := e.key + "=" + e.value;
      SubstituteSplitsAtSeparator(alts, redaction, line, Record(entries[1..], sep), sep);
      SubstituteEntry(alts, redaction, e.key, e.value, sep);
      SubstituteRecord(alts, redaction, entries[1..], sep);
      assert RedactEntries(alts, redaction, entries)[1..] == RedactEntries(alts, redaction, entries[1..]);
    }
  }

  /** `filter_datum` on a log line of plain fields. */
  lemma FilterDatumOnRecord(fields: seq<string>, redaction: string, entries: seq<Entry>, separator: char)
    requires separator != '='
    requires forall k :: 0 <= k < |fields| ==> separator !in fields[k]
    requires forall i :: 0 <= i < |entries| ==> PlainEntry(entries[i], separator)
    ensures FilterDatum(fields, redaction, Record(entries, separator), separator)
         == Record(RedactEntries(Alternatives(fields), redaction, entries), separator)
  {
    SubstituteRecord(Alternatives(fields), redaction, entries, separator);
  }
}

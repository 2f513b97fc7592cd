/** The redaction calls made by 0x00-personal_data/main.py, and edge cases
    of the unanchored pattern, stated on log lines built field by field. */
module LoggerDemo {
  import opened FilteredLogger

  /** The fields the script passes to `filter_datum`. */
  const ScriptFields: seq<string> := ["password", "date_of_birth"]

  /** The fields the script gives `RedactingFormatter`. */
  const FormatterFields: seq<string> := ["email", "ssn", "password"]

  /** The shape of the script's two `filter_datum` messages. */
  function ScriptLine(name: string, email: string, password: string, birth: string): seq<Entry>
  {
    [Entry("name", name), Entry("email", email), Entry("password", password), Entry("date_of_birth", birth)]
  }

  /** The shape of the message the script formats. */
  function FormatterLine(name: string, email: string, ssn: string, password: string): seq<Entry>
  {
    [Entry("name", name), Entry("email", email), Entry("ssn", ssn), Entry("password", password)]
  }

  /** Redacting a line of four entries redacts each entry. */
  lemma RedactFour(alts: seq<string>, redaction: string, a: Entry, b: Entry, c: Entry, d: Entry)
    ensures RedactEntries(alts, redaction, [a, b, c, d])
         == [RedactEntry(alts, redaction, a), RedactEntry(alts, redaction, b),
             RedactEntry(alts, redaction, c), RedactEntry(alts, redaction, d)]
  {
  }

  /** A key shorter than every field ends with none of them. */
  lemma KeyShorterThanFields(alts: seq<string>, key: string)
    requires forall k :: 0 <= k < |alts| ==> |key| < |alts[k]|
    ensures !EndsWithField(alts, key)
  {
  }

  lemma ScriptLineEntries(name: string, email: string, password: string, birth: string)
    requires password != [] && birth != []
    ensures RedactEntries(ScriptFields, "xxx", ScriptLine(name, email, password, birth))
         == ScriptLine(name, email, "xxx", "xxx")
  {
    RedactFour(ScriptFields, "xxx", Entry("name", name), Entry("email", email), Entry("password", password), Entry("date_of_birth", birth));
    KeyShorterThanFields(ScriptFields, "name");
    KeyShorterThanFields(ScriptFields, "email");
    ListedEntryRedacted(ScriptFields, "xxx", Entry("password", password), 0);
    ListedEntryRedacted(ScriptFields, "xxx", Entry("date_of_birth", birth), 1);
  }

  lemma ScriptLinePlain(name: string, email: string, password: string, birth: string)
    requires PlainText(name, ';') && PlainText(email, ';')
    requires PlainText(password, ';') && PlainText(birth, ';')
    ensures forall i :: 0 <= i < 4 ==> PlainEntry(ScriptLine(name, email, password, birth)[i], ';')
  {
  }

  /** `filter_datum(["password", "date_of_birth"], 'xxx', message, ';')`
      keeps `name` and `email` and replaces the two listed values, whatever
      plain values the line carries. */
  lemma ScriptLineFiltered(name: string, email: string, password: string, birth: string)
    requires PlainText(name, ';') && PlainText(email, ';')
    requires PlainText(password, ';') && PlainText(birth, ';')
    requires password != [] && birth != []
    ensures FilterDatum(ScriptFields, "xxx", Record(ScriptLine(name, email, password, birth), ';'), ';')
         == Record(ScriptLine(name, email, "xxx", "xxx"), ';')
  {
    ScriptLinePlain(name, email, password, birth);
    FilterDatumOnRecord(ScriptFields, "xxx", ScriptLine(name, email, password, birth), ';');
    ScriptLineEntries(name, email, password, birth);
  }

  lemma NameUnlisted()
    ensures !EndsWithField(FormatterFields, "name")
  {
    assert !IsSuffix(FormatterFields[1], "name") by {
      assert "name"[1..][0] != FormatterFields[1][0];
    }
  }

  lemma FormatterLineEntries(name: string, email: string, ssn: string, password: string)
    requires email != [] && ssn != [] && password != []
    ensures RedactEntries(FormatterFields, "***", FormatterLine(name, email, ssn, password))
         == FormatterLine(name, "***", "***", "***")
  {
    RedactFour(FormatterFields, "***", Entry("name", name), Entry("email", email), Entry("ssn", ssn), Entry("password", password));
    NameUnlisted();
    ListedEntryRedacted(FormatterFields, "***", Entry("email", email), 0);
    ListedEntryRedacted(FormatterFields, "***", Entry("ssn", ssn), 1);
    ListedEntryRedacted(FormatterFields, "***", Entry("password", password), 2);
  }

  lemma FormatterLinePlain(name: string, email: string, ssn: string, password: string)
    requires PlainText(name, ';') && PlainText(email, ';')
    requires PlainText(ssn, ';') && PlainText(password, ';')
    ensures forall i :: 0 <= i < 4 ==> PlainEntry(FormatterLine(name, email, ssn, password)[i], ';')
  {
  }

  /** `RedactingFormatter(fields=("email", "ssn", "password"))` leaves only
      `name` readable. */
  lemma FormatterLineRedacted(name: string, email: string, ssn: string, password: string)
    requires PlainText(name, ';') && PlainText(email, ';')
    requires PlainText(ssn, ';') && PlainText(password, ';')
    requires email != [] && ssn != [] && password != []
    ensures RedactMessage(FormatterFields, Record(FormatterLine(name, email, ssn, password), ';'))
         == Record(FormatterLine(name, "***", "***", "***"), ';')
  {
    FormatterLinePlain(name, email, ssn, password);
    FilterDatumOnRecord(FormatterFields, "***", FormatterLine(name, email, ssn, password), ';');
    FormatterLineEntries(name, email, ssn, password);
  }

  /** The script's first message. */
  lemma EggLineFiltered()
    ensures FilterDatum(ScriptFields, "xxx", Record(ScriptLine("egg", "eggmin@eggsample.com", "eggcellent", "12/12/1986"), ';'), ';')
         == Record(ScriptLine("egg", "eggmin@eggsample.com", "xxx", "xxx"), ';')
  {
    ScriptLineFiltered("egg", "eggmin@eggsample.com", "eggcellent", "12/12/1986");
  }

  /** The script's second message. */
  lemma BobbyLineFiltered()
    ensures FilterDatum(ScriptFields, "xxx", Record(ScriptLine("bob", "bob@dylan.com", "bobbycool", "03/04/1993"), ';'), ';')
         == Record(ScriptLine("bob", "bob@dylan.com", "xxx", "xxx"), ';')
  {
    ScriptLineFiltered("bob", "bob@dylan.com", "bobbycool", "03/04/1993");
  }

  /** The message the script formats. */
  lemma BobLineFormatted()
    ensures RedactMessage(FormatterFields, Record(FormatterLine("Bob", "bob@dylan.com", "000-123-0000", "bobby2019"), ';'))
         == Record(FormatterLine("Bob", "***", "***", "***"), ';')
  {
    FormatterLineRedacted("Bob", "bob@dylan.com", "000-123-0000", "bobby2019");
  }

  /** The pattern is not anchored: `name` also redacts `username`. */
  lemma FieldMatchesInsideLongerKey(value: string)
    requires PlainText(value, ';') && value != []
    ensures FilterDatum(["name"], "***", Record([Entry("username", value)], ';'), ';')
         == Record([Entry("username", "***")], ';')
  {
    var fields := ["name"];
    var line := [Entry("username", value)];
    assert PlainEntry(line[0], ';');
    assert IsSuffix(fields[0], "username");
    assert RedactEntries(fields, "***", line) == [Entry("username", "***")];
    FilterDatumOnRecord(fields, "***", line, ';');
  }

  /** `[^;]+` needs one character: an empty value is left as it is. */
  lemma EmptyValueKept(key: string)
    requires PlainText(key, ';')
    ensures FilterDatum(ScriptFields, "xxx", Record([Entry(key, "")], ';'), ';') == Record([Entry(key, "")], ';')
  {
    var line := [Entry(key, "")];
    assert PlainEntry(line[0], ';');
    assert RedactEntries(ScriptFields, "xxx", line) == line;
    FilterDatumOnRecord(ScriptFields, "xxx", line, ';');
  }

  /** With no fields the group is empty, and every non-empty value goes. */
  lemma NoFieldsRedactsEveryValue(entries: seq<Entry>)
    requires forall i :: 0 <= i < |entries| ==> PlainEntry(entries[i], ';') && entries[i].value != []
    ensures FilterDatum([], "xxx", Record(entries, ';'), ';')
         == Record(seq(|entries|, i requires 0 <= i < |entries| => Entry(entries[i].key, "xxx")), ';')
  {
    FilterDatumOnRecord([], "xxx", entries, ';');
    forall i | 0 <= i < |entries| ensures IsSuffix("", entries[i].key) {
      assert entries[i].key[|entries[i].key|..] == "";
    }
    assert RedactEntries([""], "xxx", entries)
        == seq(|entries|, i requires 0 <= i < |entries| => Entry(entries[i].key, "xxx"));
  }
}

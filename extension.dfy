/** The `todome { ... }` configuration block. */
module Extension {

  /** A snapshot of the configuration, as the extractor reads it. */
  datatype Settings = Settings(dueDatePrefixes: seq<string>, dateFormat: string, mentionSymbol: string)

  const DefaultDueDatePrefixes: seq<string> := ["due to"]
  const DefaultDateFormat: string := "dd.MM.yyyy"
  const DefaultMentionSymbol: string := "@"

  /** The extension object: three settings, each with its default, its getter and its setter. */
  class ToDoMeExtension {
    var dueDatePrefixes: seq<string>
    var dateFormat: string
    var mentionSymbol: string

    constructor ()
      ensures dueDatePrefixes == ["due to"]
      ensures dateFormat == "dd.MM.yyyy" && |dateFormat| + 1 == 11
      ensures mentionSymbol == "@"
    {
      dueDatePrefixes := DefaultDueDatePrefixes;
      dateFormat := DefaultDateFormat;
      mentionSymbol := DefaultMentionSymbol;
    }

    /** The current values of all three settings. */
    function Current(): Settings
      reads this
    {
      Settings(dueDatePrefixes, dateFormat, mentionSymbol)
    }

    method GetDueDatePrefixes() returns (prefixes: seq<string>)
      ensures prefixes == Current().dueDatePrefixes
    {
      prefixes := dueDatePrefixes;
    }

    method SetDueDatePrefixes(prefixes: seq<string>)
      modifies this
      ensures Current() == old(Current()).(dueDatePrefixes := prefixes)
    {
      dueDatePrefixes := prefixes;
    }

    method GetDateFormat() returns (format: string)
      ensures format == Current().dateFormat
    {
      format := dateFormat;
    }

    method SetDateFormat(format: string)
      modifies this
      ensures Current() == old(Current()).(dateFormat := format)
    {
      dateFormat := format;
    }

    method GetMentionSymbol() returns (symbol: string)
      ensures symbol == Current().mentionSymbol
    {
      symbol := mentionSymbol;
    }

    method SetMentionSymbol(symbol: string)
      modifies this
      ensures Current() == old(Current()).(mentionSymbol := symbol)
    {
      mentionSymbol := symbol;
    }
  }

  /** A setter followed by its getter gives back the value set, and the other
      two settings keep the values they had. */
  method SetThenGet(ext: ToDoMeExtension, prefixes: seq<string>, format: string, symbol: string)
    modifies ext
    ensures ext.Current() == Settings(prefixes, format, symbol)
  {
    var before := ext.Current();
    ext.SetDateFormat(format);
    assert ext.Current() == Settings(before.dueDatePrefixes, format, before.mentionSymbol);
    var f := ext.GetDateFormat();
    assert f == format;
    ext.SetMentionSymbol(symbol);
    var m := ext.GetMentionSymbol();
    assert m == symbol && ext.Current().dateFormat == format;
    ext.SetDueDatePrefixes(prefixes);
    var p := ext.GetDueDatePrefixes();
    assert p == prefixes && ext.Current().mentionSymbol == symbol;
  }
}

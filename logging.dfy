/** lib/logging.js: the `log` object writes one line per call to its stream,
    made of an optional time prefix, an optional category and the message,
    separated by " - ". The stream is the sequence of texts written to it.
    The time prefix is built with `utils.pad`, which `utils` does not
    define, so a prefixed call fails with a TypeError before writing. */
module Logging {
  import opened Wrappers
  import opened FileSystem
  import opened Utils

  /** The category part of a line: a truthy category, as text. */
  function CategoryPart(category: Value): Option<string>
  {
    if Truthy(category) then Some(ToStr(category)) else None
  }

  /** The parts of an unprefixed log line, assembled as the source does, by
      putting the category in front of the message. */
  function LineParts(category: Option<string>, message: string): (parts: seq<string>)
    ensures |parts| == (if category.Some? then 2 else 1)
    ensures parts[|parts| - 1] == message
    ensures category.Some? ==> parts[0] == category.value
  {
    if category.Some? then [category.value, message] else [message]
  }

  /** The text of one unprefixed log line, written out without the part
      list. */
  function LineText(category: Option<string>, message: string): string
  {
    (if category.Some? then category.value + " - " else "") + message + "\n"
  }

  /** Joining the parts gives the line text: the category, then the message,
      then a newline. */
  lemma LinePartsText(category: Option<string>, message: string)
    ensures Join(LineParts(category, message), " - ") + "\n" == LineText(category, message)
  {
    var parts := LineParts(category, message);
    if category.Some? {
      assert parts[1..] == [message];
      assert Join(parts, " - ") == category.value + " - " + message;
    } else {
      assert Join(parts, " - ") == message;
    }
  }

  /** The `log` object: its two flags and what it has written so far. */
  class Log {
    var prefix: bool
    var silent: bool
    var written: seq<string>

    /** The flags start as `prefix = true` and `silent = false`. */
    constructor ()
      ensures prefix && !silent && written == []
    {
      prefix, silent, written := true, false, [];
    }

    /** `log.log(category, message)` as written; `message` is `None` for a
        one-argument call. Such a call assigns the misspelled `catergory`, so
        `category` keeps the message and the message is written twice.
        Nothing is written when silent or when the message is falsy; with
        `prefix` set the call fails building the prefix; otherwise exactly
        one line is appended. */
    method LogLine(category: Value, message: Option<Value>) returns (err: Option<Error>)
      modifies this`written
      ensures var m := if message.Some? then message.value else category;
        && (silent || !Truthy(m) ==> err == None && written == old(written))
        && (!silent && Truthy(m) && prefix ==> err == Some(NotAFunction("utils.pad")) && written == old(written))
        && (!silent && Truthy(m) && !prefix ==>
              err == None && written == old(written) + [LineText(CategoryPart(category), ToStr(m))])
    {
      if silent {
        return None;
      }
      var msg := category;
      if message.Some? {
        msg := message.value;
      }
      if !Truthy(msg) {
        return None;
      }
      var output := [ToStr(msg)];
      if Truthy(category) {
        output := [ToStr(category)] + output;
      }
      if prefix {
        return Some(NotAFunction("utils.pad"));
      }
      assert output == LineParts(CategoryPart(category), ToStr(msg));
      LinePartsText(CategoryPart(category), ToStr(msg));
      written := written + [Join(output, " - ") + "\n"];
      err := None;
    }

    /** `log.log` as intended: a one-argument call resets `category`, so the
        line holds the message once. */
    method LogLineIntended(category: Value, message: Option<Value>) returns (err: Option<Error>)
      modifies this`written
      ensures var c := if message.Some? then category else Null;
        var m := if message.Some? then message.value else category;
        && (silent || !Truthy(m) ==> err == None && written == old(written))
        && (!silent && Truthy(m) && prefix ==> err == Some(NotAFunction("utils.pad")) && written == old(written))
        && (!silent && Truthy(m) && !prefix ==>
              err == None && written == old(written) + [LineText(CategoryPart(c), ToStr(m))])
    {
      if silent {
        return None;
      }
      var msg := category;
      var cat := category;
      if message.Some? {
        msg := message.value;
      } else {
        cat := Null;
      }
      if !Truthy(msg) {
        return None;
      }
      var output := [ToStr(msg)];
      if Truthy(cat) {
        output := [ToStr(cat)] + output;
      }
      if prefix {
        return Some(NotAFunction("utils.pad"));
      }
      assert output == LineParts(CategoryPart(cat), ToStr(msg));
      LinePartsText(CategoryPart(cat), ToStr(msg));
      written := written + [Join(output, " - ") + "\n"];
      err := None;
    }
  }

  /** As written, a one-argument call of a non-empty message `m` on a log
      with `prefix` off writes `m - m`. */
  lemma OneArgumentTwice(m: string)
    requires m != ""
    ensures LineText(CategoryPart(Str(m)), ToStr(Str(m))) == m + " - " + m + "\n"
  {
    assert CategoryPart(Str(m)) == Some(m);
  }

  /** As intended, the same call writes `m`. */
  lemma OneArgumentOnce(m: string)
    requires m != ""
    ensures LineText(CategoryPart(Null), ToStr(Str(m))) == m + "\n"
  {
    assert CategoryPart(Null) == None;
  }
}

/** JSON Lines files: one encoded record per line. The JSON text of a record
    is left opaque: a `Codec` stands for `json.dumps` / `json.loads`, and what
    is proved here is the line framing around it. */
module JsonLines {
  import opened Wrappers
  import opened Text

  /** `encode` is `json.dumps`; `decode` is `json.loads`, `None` when it raises. */
  datatype Codec<!T> = Codec(encode: T -> string, decode: string -> Option<T>)

  /** What `json.dumps` guarantees with its default arguments: a raw newline
      never appears in its output (newlines in strings are escaped), and
      `json.loads` gives the value back. */
  ghost predicate LineSafe<T(!new)>(c: Codec<T>) {
    forall x :: '\n' !in c.encode(x) && c.decode(c.encode(x)) == Some(x)
  }

  /** `json.dumps` output is never blank and neither starts nor ends with
      whitespace, so `line.strip()` leaves it as it is. */
  ghost predicate Compact<T(!new)>(c: Codec<T>) {
    forall x :: c.encode(x) != [] && !IsSpace(c.encode(x)[0]) && !IsSpace(c.encode(x)[|c.encode(x)| - 1])
  }

  /** The encoded lines of `items`, in order. */
  function Encoded<T>(items: seq<T>, c: Codec<T>): (r: seq<string>)
    ensures |r| == |items|
    ensures forall i :: 0 <= i < |items| ==> r[i] == c.encode(items[i])
  {
    if items == [] then [] else [c.encode(items[0])] + Encoded(items[1..], c)
  }

  /** File text written by `for entry in items: f.write(json.dumps(entry) + '\n')`. */
  function Save<T>(items: seq<T>, c: Codec<T>): string {
    if items == [] then "" else c.encode(items[0]) + "\n" + Save(items[1..], c)
  }

  /** The first index of `ch` in `s`, or `|s|` when there is none. */
  function IndexOf(s: string, ch: char): (k: nat)
    ensures k <= |s|
    ensures k < |s| ==> s[k] == ch
    ensures forall j :: 0 <= j < k ==> s[j] != ch
  {
    if s == [] then 0
    else if s[0] == ch then 0
    else 1 + IndexOf(s[1..], ch)
  }

  /** The lines joined back, each followed by its `\n` terminator. */
  function Terminated(lines: seq<string>): string {
    if lines == [] then "" else lines[0] + "\n" + Terminated(lines[1..])
  }

  /** `text` itself when it is empty or already ends with a newline,
      otherwise `text` with a newline added. */
  function WithFinalNewline(text: string): string {
    if text == [] || text[|text| - 1] == '\n' then text else text + "\n"
  }

  /** The text before a newline, the newline, and the rebuilt rest give the
      whole text rebuilt. */
  lemma RebuildStep(text: string, k: nat, restRebuilt: string)
    requires k < |text| && text[k] == '\n'
    requires restRebuilt == WithFinalNewline(text[k + 1..])
    ensures text[..k] + "\n" + restRebuilt == WithFinalNewline(text)
  {
    var rest := text[k + 1..];
    assert text == text[..k] + "\n" + rest;
    if rest != [] {
      assert rest[|rest| - 1] == text[|text| - 1];
      if text[|text| - 1] != '\n' {
        assert text[..k] + "\n" + (rest + "\n") == (text[..k] + "\n" + rest) + "\n";
      }
    }
  }

  /** The lines `for line in f` yields, without their `\n` terminators: a
      final piece with no terminator is a line too, and empty text has none.
      Terminating every piece rebuilds the text, with a `\n` added only when
      the text did not already end with one. `text` is the file's text as a
      text-mode read returns it, after universal-newline translation has
      turned every `\r\n` and lone `\r` into `\n`. */
  function Lines(text: string): (lines: seq<string>)
    ensures forall l :: l in lines ==> '\n' !in l
    ensures Terminated(lines) == WithFinalNewline(text)
    decreases |text|
  {
    if text == [] then []
    else
      var k := IndexOf(text, '\n');
      if k == |text| then
        assert text[|text| - 1] != '\n';
        assert Terminated([text]) == text + "\n";
        [text]
      else
        var tail := Lines(text[k + 1..]);
        var lines := [text[..k]] + tail;
        assert lines[0] == text[..k] && lines[1..] == tail;
        RebuildStep(text, k, Terminated(tail));
        lines
  }

  /** Decodes every line; `None` as soon as one line does not decode. */
  function DecodeAll<T>(lines: seq<string>, c: Codec<T>): (r: Option<seq<T>>)
    ensures r.Some? <==> forall i :: 0 <= i < |lines| ==> c.decode(lines[i]).Some?
    ensures r.Some? ==> (|r.value| == |lines|
                         && forall i :: 0 <= i < |lines| ==> c.decode(lines[i]) == Some(r.value[i]))
  {
    if lines == [] then Some([])
    else
      match c.decode(lines[0])
      case None => None
      case Some(x) =>
        match DecodeAll(lines[1..], c)
        case None =>
          assert forall i :: 1 <= i < |lines| ==> lines[i] == lines[1..][i - 1];
          None
        case Some(rest) => Some([x] + rest)
  }

  /** `[json.loads(line) for line in f]`: every line must decode, or the
      whole load raises. */
  function LoadStrict<T>(text: string, c: Codec<T>): Option<seq<T>> {
    DecodeAll(Lines(text), c)
  }

  /** `f` applied to every string, in order. */
  function MapStrings(f: string -> string, ls: seq<string>): (r: seq<string>)
    ensures |r| == |ls|
    ensures forall i :: 0 <= i < |ls| ==> r[i] == f(ls[i])
  {
    if ls == [] then [] else [f(ls[0])] + MapStrings(f, ls[1..])
  }

  /** Mapping distributes over concatenation. */
  lemma {:induction false} MapStringsConcat(f: string -> string, a: seq<string>, b: seq<string>)
    ensures MapStrings(f, a + b) == MapStrings(f, a) + MapStrings(f, b)
  {
    if a == [] {
      assert a + b == b;
    } else {
      assert (a + b)[0] == a[0];
      assert (a + b)[1..] == a[1..] + b;
      MapStringsConcat(f, a[1..], b);
      assert [f(a[0])] + (MapStrings(f, a[1..]) + MapStrings(f, b))
          == ([f(a[0])] + MapStrings(f, a[1..])) + MapStrings(f, b);
    }
  }

  /** The `if` of a comprehension that keeps the non-empty strings, in order. */
  function DropEmpty(ls: seq<string>): (r: seq<string>)
    ensures |r| <= |ls|
    ensures forall l :: l in r <==> l in ls && l != []
  {
    if ls == [] then []
    else if ls[0] == [] then DropEmpty(ls[1..])
    else [ls[0]] + DropEmpty(ls[1..])
  }

  /** Dropping the empty strings distributes over concatenation. */
  lemma {:induction false} DropEmptyConcat(a: seq<string>, b: seq<string>)
    ensures DropEmpty(a + b) == DropEmpty(a) + DropEmpty(b)
  {
    if a == [] {
      assert a + b == b;
    } else {
      assert (a + b)[0] == a[0];
      assert (a + b)[1..] == a[1..] + b;
      DropEmptyConcat(a[1..], b);
      if a[0] != [] {
        assert [a[0]] + (DropEmpty(a[1..]) + DropEmpty(b)) == ([a[0]] + DropEmpty(a[1..])) + DropEmpty(b);
      }
    }
  }

  /** The non-blank lines, stripped, in order: a line is kept exactly when
      its strip is non-empty, and it is kept stripped (order:
      `NonBlankConcat`). */
  function NonBlank(lines: seq<string>): (r: seq<string>)
    ensures |r| <= |lines|
    ensures forall l :: l in r ==> l != [] && exists k :: 0 <= k < |lines| && l == Strip(lines[k])
    ensures forall k :: 0 <= k < |lines| && Strip(lines[k]) != [] ==> Strip(lines[k]) in r
  {
    var stripped := MapStrings(Strip, lines);
    var r := DropEmpty(stripped);
    assert forall l :: l in r ==> l != [] && exists k :: 0 <= k < |lines| && l == Strip(lines[k]) by {
      forall l | l in r ensures l != [] && exists k :: 0 <= k < |lines| && l == Strip(lines[k]) {
        var k :| 0 <= k < |stripped| && stripped[k] == l;
        assert l == Strip(lines[k]);
      }
    }
    assert forall k :: 0 <= k < |lines| && Strip(lines[k]) != [] ==> Strip(lines[k]) in r by {
      forall k | 0 <= k < |lines| && Strip(lines[k]) != [] ensures Strip(lines[k]) in r {
        assert stripped[k] == Strip(lines[k]) && stripped[k] in stripped;
      }
    }
    r
  }

  /** Blank skipping works line by line: it distributes over concatenation,
      so the kept lines keep their relative order. */
  lemma NonBlankConcat(a: seq<string>, b: seq<string>)
    ensures NonBlank(a + b) == NonBlank(a) + NonBlank(b)
  {
    MapStringsConcat(Strip, a, b);
    DropEmptyConcat(MapStrings(Strip, a), MapStrings(Strip, b));
  }

  /** `[json.loads(line.strip()) for line in f if line.strip()]` inside a
      `try` whose handler keeps the empty list: blank lines are skipped, and
      one line that does not decode empties the whole result. */
  function LoadSkippingBlank<T>(text: string, c: Codec<T>): (r: seq<T>)
    ensures (forall l :: l in NonBlank(Lines(text)) ==> c.decode(l).Some?) ==>
      (|r| == |NonBlank(Lines(text))|
       && forall i :: 0 <= i < |r| ==> c.decode(NonBlank(Lines(text))[i]) == Some(r[i]))
    ensures (exists l :: l in NonBlank(Lines(text)) && c.decode(l).None?) ==> r == []
  {
    var kept := NonBlank(Lines(text));
    match DecodeAll(kept, c)
    case Some(items) => items
    case None =>
      assert exists i :: 0 <= i < |kept| && c.decode(kept[i]).None?;
      []
  }

  /** Splitting saved text into lines gives back the encoded records, one
      per line, because no encoded record holds a newline. */
  lemma {:induction false} LinesOfSave<T>(items: seq<T>, c: Codec<T>)
    requires forall x :: '\n' !in c.encode(x)
    ensures Lines(Save(items, c)) == Encoded(items, c)
  {
    if items != [] {
      var e := c.encode(items[0]);
      var text := Save(items, c);
      assert text == e + "\n" + Save(items[1..], c);
      assert forall j :: 0 <= j < |e| ==> text[j] == e[j];
      assert IndexOf(text, '\n') == |e| by {
        assert text[|e|] == '\n';
        assert '\n' !in e;
      }
      assert text[..|e|] == e;
      assert text[|e| + 1..] == Save(items[1..], c);
      LinesOfSave(items[1..], c);
    }
  }

  /** Round trip of the line-by-line loader: loading saved text returns the
      saved list, same length, same order. */
  lemma LoadStrictOfSave<T(!new)>(items: seq<T>, c: Codec<T>)
    requires LineSafe(c)
    ensures LoadStrict(Save(items, c), c) == Some(items)
  {
    LinesOfSave(items, c);
    var r := DecodeAll(Encoded(items, c), c);
    assert r.Some?;
    assert r.value == items;
  }

  /** Stripping the encoded lines changes none of them, and none is blank. */
  lemma NonBlankOfEncoded<T(!new)>(items: seq<T>, c: Codec<T>)
    requires Compact(c)
    ensures NonBlank(Encoded(items, c)) == Encoded(items, c)
  {
    var e := Encoded(items, c);
    forall i | 0 <= i < |e| ensures Strip(e[i]) == e[i] && e[i] != [] {
      var x := items[i];
      assert e[i] == c.encode(x);
      assert c.encode(x) != [] && !IsSpace(c.encode(x)[0]) && !IsSpace(c.encode(x)[|c.encode(x)| - 1]);
      StripOfStripped(e[i]);
    }
    assert MapStrings(Strip, e) == e;
    DropEmptyUnchanged(e);
  }

  /** A list with no empty string is its own `DropEmpty`. */
  lemma {:induction false} DropEmptyUnchanged(ls: seq<string>)
    requires forall i :: 0 <= i < |ls| ==> ls[i] != []
    ensures DropEmpty(ls) == ls
  {
    if ls != [] {
      DropEmptyUnchanged(ls[1..]);
    }
  }

  /** Round trip of the blank-skipping loader. */
  lemma LoadSkippingBlankOfSave<T(!new)>(items: seq<T>, c: Codec<T>)
    requires LineSafe(c) && Compact(c)
    ensures LoadSkippingBlank(Save(items, c), c) == items
  {
    LinesOfSave(items, c);
    NonBlankOfEncoded(items, c);
    var r := DecodeAll(Encoded(items, c), c);
    assert r.Some? && r.value == items;
  }
}

/**
 * The few pieces of the Java platform that the entity, converter, service and
 * locale code relies on: nullable references, exceptions, String.isBlank,
 * String.split with a one-character separator and Collectors.joining.
 */
module JavaLang {

  /** A Java reference that may be null. */
  datatype Option<+T> = None | Some(value: T)

  /** The kinds of exception the modelled code throws or lets through. */
  datatype Exception =
    | NullPointerException
    | IllegalArgumentException
    | IllegalStateException
    | UnsupportedTemporalTypeException
    | EntityExistsException

  /** Either the value a Java call returns normally, or the exception it throws. */
  datatype Result<+T> = Ok(value: T) | Throws(exception: Exception)

  /** Character.isWhitespace: space, line and paragraph separators other than the
      non-breaking ones, and the ASCII controls TAB, LF, VT, FF, CR and FS..US. */
  predicate IsWhitespace(c: char) {
    || c == ' ' || c == '\t' || c == '\n' || c == '\U{000B}' || c == '\U{000C}' || c == '\r'
    || ('\U{001C}' <= c <= '\U{001F}')
    || c == '\U{1680}'
    || ('\U{2000}' <= c <= '\U{200A}' && c != '\U{2007}')
    || c == '\U{2028}' || c == '\U{2029}' || c == '\U{205F}' || c == '\U{3000}'
  }

  /** String.isBlank: empty, or white space only. */
  predicate IsBlank(s: string): (b: bool)
    ensures s == "" ==> b
  {
    forall i :: 0 <= i < |s| ==> IsWhitespace(s[i])
  }

  /** Collectors.joining(sep) over the parts in stream order. */
  function Join(parts: seq<string>, sep: char): (r: string)
    ensures |parts| == 0 ==> r == ""
    ensures |parts| >= 1 ==> parts[0] <= r
  {
    if |parts| == 0 then ""
    else if |parts| == 1 then parts[0]
    else
      var r := parts[0] + [sep] + Join(parts[1..], sep);
      assert r[..|parts[0]|] == parts[0];
      r
  }

  /** Every segment of s between separators, including empty ones; joining them
      back with the separator gives s again. */
  function Segments(s: string, sep: char): (r: seq<string>)
    ensures |r| >= 1
    ensures forall i :: 0 <= i < |r| ==> sep !in r[i]
    ensures Join(r, sep) == s
    ensures sep !in s ==> r == [s]
  {
    if |s| == 0 then [""]
    else if s[0] == sep then
      var rest := Segments(s[1..], sep);
      assert s == [sep] + s[1..];
      [""] + rest
    else
      var rest := Segments(s[1..], sep);
      assert s == [s[0]] + s[1..];
      var r := [[s[0]] + rest[0]] + rest[1..];
      assert r[1..] == rest[1..];
      r
  }

  /** Drops the trailing empty strings, as split with limit 0 does. */
  function DropTrailingEmpty(parts: seq<string>): (r: seq<string>)
    ensures r <= parts
    ensures |r| > 0 ==> r[|r| - 1] != ""
    ensures forall i :: |r| <= i < |parts| ==> parts[i] == ""
  {
    if |parts| == 0 then []
    else if parts[|parts| - 1] == "" then DropTrailingEmpty(parts[..|parts| - 1])
    else parts
  }

  /** String.split(String.valueOf(sep)) for a separator that is not a regular
      expression metacharacter: with no separator present the string itself is
      the only element, otherwise the segments with trailing empty ones removed. */
  function Split(s: string, sep: char): (r: seq<string>)
    ensures sep !in s ==> r == [s]
    ensures forall i :: 0 <= i < |r| ==> sep !in r[i]
  {
    if sep !in s then [s] else DropTrailingEmpty(Segments(s, sep))
  }

  /** A separator-free word followed by the separator contributes exactly one segment. */
  lemma {:induction false} SegmentsOfPrefix(w: string, sep: char, t: string)
    requires sep !in w
    ensures Segments(w + [sep] + t, sep) == [w] + Segments(t, sep)
    decreases |w|
  {
    var s := w + [sep] + t;
    if w == [] {
      assert s == [sep] + t;
      assert s[1..] == t;
    } else {
      assert s[1..] == w[1..] + [sep] + t;
      SegmentsOfPrefix(w[1..], sep, t);
      assert w == [w[0]] + w[1..];
    }
  }

  /** Splitting what was joined gives back the parts, provided none contains the
      separator and there is at least one. */
  lemma {:induction false} SegmentsOfJoin(parts: seq<string>, sep: char)
    requires |parts| >= 1
    requires forall i :: 0 <= i < |parts| ==> sep !in parts[i]
    ensures Segments(Join(parts, sep), sep) == parts
    decreases |parts|
  {
    if |parts| > 1 {
      SegmentsOfJoin(parts[1..], sep);
      SegmentsOfPrefix(parts[0], sep, Join(parts[1..], sep));
      assert parts == [parts[0]] + parts[1..];
    }
  }

  /** The join of two or more parts always holds the separator. */
  lemma SeparatorInJoin(parts: seq<string>, sep: char)
    requires |parts| >= 2
    ensures sep in Join(parts, sep)
  {
    assert Join(parts, sep)[|parts[0]|] == sep;
  }

  /** String.split inverts Collectors.joining when the parts are non-empty and free
      of the separator. */
  lemma {:induction false} SplitOfJoin(parts: seq<string>, sep: char)
    requires |parts| >= 1
    requires forall i :: 0 <= i < |parts| ==> sep !in parts[i] && parts[i] != ""
    ensures Split(Join(parts, sep), sep) == parts
  {
    if |parts| == 1 {
      assert Join(parts, sep) == parts[0];
    } else {
      SeparatorInJoin(parts, sep);
      SegmentsOfJoin(parts, sep);
    }
  }
}

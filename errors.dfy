/**
 * The error values of authboss's validation package: FieldError and the
 * plain errors that an ErrorList may mix with it, and the rendering of an
 * ErrorList as a single message (ErrorList.Error()).
 */
module Errors {

  /**
   * One element of an ErrorList. `Field` is a FieldError: the name of the
   * form field it belongs to and the message of its cause. `Plain` is any
   * other error value, known only by its message.
   */
  datatype Error = Plain(msg: string) | Field(name: string, msg: string)

  type ErrorList = seq<Error>

  /** What ErrorList.Error() puts between two messages. */
  const SEPARATOR: string := ", "

  /** The text of one error; a FieldError renders as its cause alone. */
  function Message(e: Error): string
  {
    e.msg
  }

  /** A FieldError's text does not depend on its field name. */
  lemma FieldMessageIsCause(name: string, cause: string)
    ensures Message(Field(name, cause)) == cause
    ensures Message(Field(name, cause)) == Message(Plain(cause))
  {
  }

  /** The messages of a list, in list order. */
  function Messages(l: ErrorList): (r: seq<string>)
    ensures |r| == |l|
    ensures forall i :: 0 <= i < |l| ==> r[i] == Message(l[i])
  {
    if l == [] then [] else [Message(l[0])] + Messages(l[1..])
  }

  /** The messages of a concatenation are the concatenated messages. */
  lemma MessagesAppend(a: ErrorList, b: ErrorList)
    ensures Messages(a + b) == Messages(a) + Messages(b)
  {
  }

  /** `parts` with `sep` between each two neighbours: it opens with the first part and closes with the last. */
  function Join(parts: seq<string>, sep: string): (r: string)
    ensures parts == [] ==> r == ""
    ensures parts != [] ==> |parts[0]| <= |r| && r[..|parts[0]|] == parts[0]
    ensures parts != [] ==> |parts[|parts| - 1]| <= |r| && r[|r| - |parts[|parts| - 1]|..] == parts[|parts| - 1]
  {
    if |parts| == 0 then ""
    else if |parts| == 1 then parts[0]
    else parts[0] + sep + Join(parts[1..], sep)
  }

  /** The total length of a sequence of strings. */
  function TotalLength(parts: seq<string>): nat
  {
    if parts == [] then 0 else |parts[0]| + TotalLength(parts[1..])
  }

  /** Joining two non-empty runs puts exactly one separator between them. */
  lemma {:induction false} JoinAppend(a: seq<string>, b: seq<string>, sep: string)
    requires |a| > 0 && |b| > 0
    ensures Join(a + b, sep) == Join(a, sep) + sep + Join(b, sep)
  {
    var c := a + b;
    assert |c| > 1 && c[0] == a[0];
    if |a| == 1 {
      assert c[1..] == b;
    } else {
      var t := a[1..];
      assert c[1..] == t + b;
      JoinAppend(t, b, sep);
      calc {
        Join(c, sep);
        a[0] + sep + Join(t + b, sep);
        a[0] + sep + (Join(t, sep) + sep + Join(b, sep));
        (a[0] + sep + Join(t, sep)) + sep + Join(b, sep);
      }
    }
  }

  /** Adding one more part appends a separator and the part. */
  lemma JoinSnoc(parts: seq<string>, p: string, sep: string)
    requires |parts| > 0
    ensures Join(parts + [p], sep) == Join(parts, sep) + sep + p
  {
    JoinAppend(parts, [p], sep);
  }

  /** The joined text holds every part and one separator per gap, nothing more. */
  lemma {:induction false} JoinLength(parts: seq<string>, sep: string)
    ensures |Join(parts, sep)| == TotalLength(parts) + (if parts == [] then 0 else (|parts| - 1) * |sep|)
  {
    if |parts| > 1 {
      JoinLength(parts[1..], sep);
    }
  }

  /**
   * ErrorList.Error(): the element messages joined by ", " in list order. An
   * empty list gives ""; otherwise the text opens with the first element's
   * message and closes with the last one's.
   */
  function Render(l: ErrorList): (r: string)
    ensures l == [] ==> r == ""
    ensures l != [] ==> |Message(l[0])| <= |r| && r[..|Message(l[0])|] == Message(l[0])
    ensures l != [] ==> |Message(l[|l| - 1])| <= |r| && r[|r| - |Message(l[|l| - 1])|..] == Message(l[|l| - 1])
  {
    Join(Messages(l), SEPARATOR)
  }

  /** The empty list renders as the empty string, a single error as its own message. */
  lemma RenderShort(l: ErrorList)
    ensures l == [] ==> Render(l) == ""
    ensures |l| == 1 ==> Render(l) == Message(l[0])
  {
  }

  /** Rendering two non-empty lists back to back: ", " between their renderings. */
  lemma RenderAppend(a: ErrorList, b: ErrorList)
    requires a != [] && b != []
    ensures Render(a + b) == Render(a) + SEPARATOR + Render(b)
  {
    MessagesAppend(a, b);
    JoinAppend(Messages(a), Messages(b), SEPARATOR);
  }

  /** Appending one error appends ", " and its message. */
  lemma RenderSnoc(l: ErrorList, e: Error)
    requires l != []
    ensures Render(l + [e]) == Render(l) + SEPARATOR + Message(e)
  {
    RenderAppend(l, [e]);
  }

  /** The rendered text is as long as all messages plus two characters per gap. */
  lemma RenderLength(l: ErrorList)
    ensures |Render(l)| == TotalLength(Messages(l)) + (if l == [] then 0 else 2 * (|l| - 1))
  {
  }

  /** ErrorList{errors.New("one"), errors.New("two")}.Error() is "one, two". */
  lemma RenderOneTwo()
    ensures Render([Plain("one"), Plain("two")]) == "one, two"
  {
  }
}

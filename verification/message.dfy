/**
  The feedback side of the hat check: the verdict is shown on a message element by
  setting its text and toggling two CSS classes, one added and the other removed.
 */
module DetectorMessage {
  import opened HatDecision

  /** Text shown while the classifier is still loading. */
  const LoadingText: string := "Un momentito..."
  /** Text shown on an accepted frame ("Puedes pasar" and a grinning face). */
  const PassText: string := "Puedes pasar \U{1F606}"
  /** Text shown on a rejected frame ("Ponte sombrero!" and a cowboy-hat face). */
  const FailText: string := "\U{00A1}Ponte sombrero! \U{1F920}"
  const GreenClass: string := "message--green"
  const RedClass: string := "message--red"

  /** The observable state of the message element: its text and its class list. */
  datatype MessageView = MessageView(text: string, classes: set<string>)

  /**
    The element after showing a verdict: pass text with the green class and without the
    red one, or the reverse; every other class is kept as it was.
   */
  function Shown(v: MessageView, pass: bool): (r: MessageView)
    ensures r.text == (if pass then PassText else FailText)
    ensures GreenClass in r.classes <==> pass
    ensures RedClass in r.classes <==> !pass
    ensures forall c :: c != GreenClass && c != RedClass ==> (c in r.classes <==> c in v.classes)
  {
    if pass then MessageView(PassText, v.classes + {GreenClass} - {RedClass})
    else MessageView(FailText, v.classes + {RedClass} - {GreenClass})
  }

  /** A message that shows a verdict consistently: exactly one colour, matching the text. */
  ghost predicate ShowsVerdict(v: MessageView, pass: bool)
  {
    (GreenClass in v.classes <==> pass) && (RedClass in v.classes <==> !pass) &&
    v.text == (if pass then PassText else FailText)
  }

  /** Only the last verdict shown matters: showing p and then q is the same as showing q. */
  lemma LastVerdictWins(v: MessageView, p: bool, q: bool)
    ensures Shown(Shown(v, p), q) == Shown(v, q)
  {
    var once, twice := Shown(v, q), Shown(Shown(v, p), q);
    assert forall c :: c in twice.classes <==> c in once.classes;
  }

  /** Showing the same verdict twice leaves the element as showing it once. */
  lemma ShownIdempotent(v: MessageView, pass: bool)
    ensures Shown(Shown(v, pass), pass) == Shown(v, pass)
  {
    LastVerdictWins(v, pass, pass);
  }

  /** The message element, whose text and class list are updated in place. */
  class MessageElement {
    var text: string
    var classes: set<string>

    function View(): (v: MessageView)
      reads this
    {
      MessageView(text, classes)
    }

    /** The element as the page sets it up before the classifier has loaded. */
    constructor (initialClasses: set<string>)
      ensures text == LoadingText && classes == initialClasses
    {
      text := LoadingText;
      classes := initialClasses;
    }

    /** `classList.add`: the class is present afterwards, nothing else changes. */
    method AddClass(c: string)
      modifies this
      ensures classes == old(classes) + {c} && text == old(text)
    {
      classes := classes + {c};
    }

    /** `classList.remove`: the class is absent afterwards, nothing else changes. */
    method RemoveClass(c: string)
      modifies this
      ensures classes == old(classes) - {c} && text == old(text)
    {
      classes := classes - {c};
    }

    /** Shows the verdict of the hat check for `items` on this element. */
    method ShowDetectorMessage(items: seq<ScoreEntry>)
      modifies this
      ensures View() == Shown(old(View()), IsHatScoreHighest(items))
      ensures ShowsVerdict(View(), PassesHatCheck(items))
      ensures forall c :: c != GreenClass && c != RedClass ==> (c in classes <==> c in old(classes))
    {
      if IsHatScoreHighest(items) {
        text := PassText;
        AddClass(GreenClass);
        RemoveClass(RedClass);
      } else {
        text := FailText;
        AddClass(RedClass);
        RemoveClass(GreenClass);
      }
    }
  }
}

/** The keyword intent detectors: a handler fires when one of its fixed
    trigger strings occurs anywhere in the lower-cased message, and then
    answers with its reply. */
module TextHandlers {
  import opened Wrappers
  import opened Text

  /** The three concrete handlers. */
  datatype Handler = Hello | End | Weather

  /** The exception a handler's reply can raise: the weather handler reads a
      private message attribute that its constructor never assigns. */
  datatype HandlerError = MissingMessage

  const HelloReply: string := "Привет!"
  const EndReply: string := "Пока!"

  /** `_handler_triggers` of each handler. */
  function Triggers(h: Handler): seq<string>
  {
    match h
    case Hello => ["привет", "здарова", "йоу", "добрый вечер", "добрый день", "доброе утро"]
    case End => ["пока", "до встречи", "досвидание", "досвидания", "прощай"]
    case Weather => ["погода", "погоды", "погоде", "прогноз"]
  }

  /** `_get_message`: a constant reply, or the attribute error of the weather handler. */
  function GetMessage(h: Handler, message: string): Result<string, HandlerError>
  {
    match h
    case Hello => Success(HelloReply)
    case End => Success(EndReply)
    case Weather => Failure(MissingMessage)
  }

  /** `any(word in text for word in words)`, scanning the words in order. */
  function AnyTrigger(words: seq<string>, text: string): bool
  {
    if |words| == 0 then false
    else Contains(words[0], text) || AnyTrigger(words[1..], text)
  }

  /** Some trigger of `h` is a contiguous substring of the lower-cased message. */
  ghost predicate Triggered(h: Handler, message: string)
  {
    exists w :: w in Triggers(h) && Occurs(w, Lower(message))
  }

  lemma {:induction false} AnyTriggerIff(words: seq<string>, text: string)
    ensures AnyTrigger(words, text) <==> exists w :: w in words && Occurs(w, text)
  {
    if |words| > 0 {
      ContainsIffOccurs(words[0], text);
      AnyTriggerIff(words[1..], text);
      if exists w :: w in words && Occurs(w, text) {
        var w :| w in words && Occurs(w, text);
        if w != words[0] {
          assert w in words[1..];
        }
      }
    }
  }

  /** `SuperTextHandler.get`: (False, None) when nothing fires, otherwise
      (True, reply), where asking the weather handler for its reply fails. */
  function Get(h: Handler, message: string): (r: Result<(bool, Option<string>), HandlerError>)
    ensures !Triggered(h, message) ==> r == Success((false, None))
    ensures Triggered(h, message) && h == Hello ==> r == Success((true, Some(HelloReply)))
    ensures Triggered(h, message) && h == End ==> r == Success((true, Some(EndReply)))
    ensures Triggered(h, message) && h == Weather ==> r == Failure(MissingMessage)
  {
    AnyTriggerIff(Triggers(h), Lower(message));
    if AnyTrigger(Triggers(h), Lower(message)) then
      match GetMessage(h, message)
      case Success(m) => Success((true, Some(m)))
      case Failure(e) => Failure(e)
    else
      Success((false, None))
  }

  /** Firing is monotone: text added around a firing message keeps it firing. */
  lemma TriggeredMonotone(h: Handler, message: string, pre: string, post: string)
    requires Triggered(h, message)
    ensures Triggered(h, pre + message + post)
  {
    var w :| w in Triggers(h) && Occurs(w, Lower(message));
    OccursInExtension(w, Lower(message), Lower(pre), Lower(post));
    LowerAppend(pre, message);
    LowerAppend(pre + message, post);
  }

  /** The weather handler never answers: every message either does not fire
      it or makes it fail. */
  lemma WeatherNeverReplies(message: string)
    ensures Get(Weather, message) == Success((false, None)) || Get(Weather, message) == Failure(MissingMessage)
  {
  }

  /** Every handler fires on each of its own trigger strings. */
  lemma TriggersFireTheirHandler(h: Handler, w: string)
    requires w in Triggers(h)
    ensures Triggered(h, w)
  {
    assert Lower(w) == w;
    assert OccursAt(w, Lower(w), 0);
  }

  /** Matching is by substring and ignores case: a capitalised greeting, a
      greeting inside a longer word and a two-word greeting all fire. */
  lemma HelloExamples()
    ensures Get(Hello, "привет") == Success((true, Some(HelloReply)))
    ensures Get(Hello, "ПРИВЕТ") == Success((true, Some(HelloReply)))
    ensures Get(Hello, "приветствую") == Success((true, Some(HelloReply)))
    ensures Get(Hello, "Добрый вечер!") == Success((true, Some(HelloReply)))
  {
    assert OccursAt("привет", Lower("привет"), 0);
    assert OccursAt("привет", Lower("ПРИВЕТ"), 0);
    assert OccursAt("привет", Lower("приветствую"), 0);
    assert OccursAt("добрый вечер", Lower("Добрый вечер!"), 0);
  }

  /** 'пока' fires the farewell handler, including inside 'покажи'. */
  lemma EndExamples()
    ensures Get(End, "пока") == Success((true, Some(EndReply)))
    ensures Get(End, "покажи пиво") == Success((true, Some(EndReply)))
  {
    assert OccursAt("пока", Lower("пока"), 0);
    assert OccursAt("пока", Lower("покажи пиво"), 0);
  }

  /** A message that mentions the weather makes the weather handler fail. */
  lemma WeatherFailsWhenFired()
    ensures Get(Weather, "какая погода?") == Failure(MissingMessage)
  {
    var m := "какая погода?";
    assert Lower(m) == m;
    assert OccursAt("погода", m, 6);
    assert "погода" in Triggers(Weather);
    assert Triggered(Weather, m);
  }

  /** A message that does not mention the weather leaves it silent. */
  lemma WeatherSilentOnGreeting()
    ensures Get(Weather, "привет") == Success((false, None))
  {
    var hi := "привет";
    assert Lower(hi) == hi;
    assert hi[1] == 'р';
    assert !Contains("погода", hi) && !Contains("погоды", hi) && !Contains("погоде", hi);
    assert !Contains("прогноз", hi);
    assert !AnyTrigger(Triggers(Weather), hi);
    AnyTriggerIff(Triggers(Weather), hi);
  }
}

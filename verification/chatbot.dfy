/** The chat assistant's reading of a message: the text is trimmed, lowered,
    cut into whitespace-separated words, and scanned for known city names
    (origin and destination) and for intent keywords. A message that is
    blank after trimming is never sent. The lookups a recognised intent
    triggers go over the network; they are a parameter here. */
module ChatBot {
  import opened Wrappers
  import opened Seqs

  /** The characters JavaScript's `\s` class and `String.prototype.trim`
      treat as white space: tab, line feed, vertical tab, form feed, carriage
      return, the space separators, the line and paragraph separators and
      the byte-order mark. */
  predicate IsJsSpace(c: char) {
    var n := c as int;
    (9 <= n <= 13) || n == 0x20 || n == 0xA0 || n == 0x1680 || (0x2000 <= n <= 0x200A)
    || n == 0x2028 || n == 0x2029 || n == 0x202F || n == 0x205F || n == 0x3000 || n == 0xFEFF
  }

  predicate NoSpace(s: string) {
    forall i :: 0 <= i < |s| ==> !IsJsSpace(s[i])
  }

  predicate AllSpace(s: string) {
    forall i :: 0 <= i < |s| ==> IsJsSpace(s[i])
  }

  // ---------------------------------------------------------------- trimming

  function TrimStart(s: string): (t: string)
    ensures |t| <= |s| && t == s[|s| - |t|..]
    ensures t == [] || !IsJsSpace(t[0])
    ensures forall k :: 0 <= k < |s| - |t| ==> IsJsSpace(s[k])
    decreases |s|
  {
    if s != [] && IsJsSpace(s[0]) then TrimStart(s[1..]) else s
  }

  function TrimEnd(s: string): (t: string)
    ensures |t| <= |s| && t == s[..|t|]
    ensures t == [] || !IsJsSpace(t[|t| - 1])
    ensures forall k :: |t| <= k < |s| ==> IsJsSpace(s[k])
    decreases |s|
  {
    if s != [] && IsJsSpace(s[|s| - 1]) then TrimEnd(s[..|s| - 1]) else s
  }

  /** `String.prototype.trim`: the text between the first and the last
      character that is not white space. */
  function Trim(s: string): (t: string)
    ensures t == [] || (!IsJsSpace(t[0]) && !IsJsSpace(t[|t| - 1]))
  {
    TrimEnd(TrimStart(s))
  }

  lemma TrimStartDrops(s: string)
    ensures AllSpace(s[..|s| - |TrimStart(s)|])
  {
    var a := |s| - |TrimStart(s)|;
    forall k | 0 <= k < a
      ensures IsJsSpace(s[..a][k])
    {
      assert s[..a][k] == s[k];
    }
  }

  lemma TrimEndDrops(u: string)
    ensures AllSpace(u[|TrimEnd(u)|..])
  {
    var n := |TrimEnd(u)|;
    forall k | 0 <= k < |u| - n
      ensures IsJsSpace(u[n..][k])
    {
      assert u[n..][k] == u[n + k];
    }
  }

  /** Trimming removes only white space, from both ends. */
  lemma TrimIsInfix(s: string)
    ensures exists a, b :: 0 <= a <= b <= |s| && Trim(s) == s[a..b] && AllSpace(s[..a]) && AllSpace(s[b..])
  {
    TrimStartDrops(s);
    TrimEndDrops(TrimStart(s));
    InfixOfParts(s, TrimStart(s), Trim(s));
  }

  /** A suffix left after white space, cut before white space, is an infix
      between two runs of white space. */
  lemma InfixOfParts(s: string, u: string, t: string)
    requires |u| <= |s| && u == s[|s| - |u|..] && AllSpace(s[..|s| - |u|])
    requires |t| <= |u| && t == u[..|t|] && AllSpace(u[|t|..])
    ensures exists a, b :: 0 <= a <= b <= |s| && t == s[a..b] && AllSpace(s[..a]) && AllSpace(s[b..])
  {
    var a := |s| - |u|;
    var b := a + |t|;
    assert t == s[a..b];
    assert s[b..] == u[|t|..];
    assert 0 <= a <= b <= |s| && t == s[a..b] && AllSpace(s[..a]) && AllSpace(s[b..]);
  }

  /** A text trims to nothing exactly when it is all white space. */
  lemma TrimEmptyIffBlank(s: string)
    ensures Trim(s) == [] <==> AllSpace(s)
  {
    var u := TrimStart(s);
    assert u != [] ==> u[0] == s[|s| - |u|];
    assert Trim(s) == [] ==> AllSpace(u);
  }

  // ---------------------------------------------------------------- lowering

  /** `toLowerCase` on one character, for the ASCII capitals and the
      Latin-1 capitals (`À`..`Þ` except `×`), which each map 32 places on. */
  function LowerChar(c: char): (d: char)
    ensures IsJsSpace(d) <==> IsJsSpace(c)
    ensures 'a' <= d <= 'z' ==> c == d || c == (d as int - 32) as char
  {
    var n := c as int;
    if ('A' <= c <= 'Z') || (0xC0 <= n <= 0xDE && n != 0xD7) then (n + 32) as char else c
  }

  /** `toLowerCase` on a text, character by character. */
  function LowerText(s: string): (t: string)
    ensures |t| == |s|
    ensures forall i :: 0 <= i < |s| ==> t[i] == LowerChar(s[i])
  {
    seq(|s|, i requires 0 <= i < |s| => LowerChar(s[i]))
  }

  /** Lowering moves no word boundary. */
  lemma LowerKeepsSpaces(s: string)
    ensures NoSpace(LowerText(s)) <==> NoSpace(s)
    ensures AllSpace(LowerText(s)) <==> AllSpace(s)
  {
  }

  // ---------------------------------------------------------------- words

  /** The number of white-space characters that open `s`. */
  function LeadingSpaces(s: string): (k: nat)
    ensures k <= |s|
    ensures forall i :: 0 <= i < k ==> IsJsSpace(s[i])
    ensures k < |s| ==> !IsJsSpace(s[k])
    decreases |s|
  {
    if s != [] && IsJsSpace(s[0]) then 1 + LeadingSpaces(s[1..]) else 0
  }

  /** `split(/\s+/)` with the word read so far in `cur`: every maximal run of
      white space ends a word, so a leading or trailing run yields an empty
      word, as in JavaScript. */
  function SplitFrom(s: string, cur: string): (r: seq<string>)
    ensures |r| >= 1
    ensures NoSpace(cur) ==> forall w :: w in r ==> NoSpace(w)
    decreases |s|
  {
    if s == [] then [cur]
    else if IsJsSpace(s[0]) then
      var k := LeadingSpaces(s);
      [cur] + SplitFrom(s[k..], [])
    else SplitFrom(s[1..], cur + [s[0]])
  }

  function Split(s: string): (r: seq<string>)
    ensures |r| >= 1
    ensures forall w :: w in r ==> NoSpace(w)
  {
    SplitFrom(s, [])
  }

  /** A word without white space only extends the word being read. */
  lemma {:induction false} SplitFromWord(w: string, t: string, cur: string)
    requires NoSpace(w)
    ensures SplitFrom(w + t, cur) == SplitFrom(t, cur + w)
    decreases |w|
  {
    if w == [] {
      assert w + t == t && cur + w == cur;
    } else {
      assert (w + t)[0] == w[0] && (w + t)[1..] == w[1..] + t;
      SplitFromWord(w[1..], t, cur + [w[0]]);
      assert cur + [w[0]] + w[1..] == cur + w;
    }
  }

  /** A white-space run at the start or the end of a message gives an empty
      first or last word, as `split(/\s+/)` does in JavaScript. */
  lemma SplitEdges(w: string)
    requires w != [] && NoSpace(w)
    ensures Split(" " + w) == ["", w]
    ensures Split(w + " ") == [w, ""]
  {
    SplitFromWord(w, [], []);
    assert w + [] == w && [] + w == w;
    assert LeadingSpaces(w) == 0;
    assert (" " + w)[1..] == w;
    assert LeadingSpaces(" " + w) == 1;
    SplitFromWord(w, " ", []);
    assert LeadingSpaces(" ") == 1;
    assert " "[1..] == [];
  }

  /** `w` sits in `t` at `i` as a whole word: white space or an end of the
      text on both sides. */
  ghost predicate WordAt(t: string, w: string, i: int) {
    && 0 <= i && i + |w| <= |t| && t[i..i + |w|] == w
    && (i == 0 || IsJsSpace(t[i - 1]))
    && (i + |w| == |t| || IsJsSpace(t[i + |w|]))
  }

  ghost predicate WholeWord(t: string, w: string) {
    exists i :: WordAt(t, w, i)
  }

  /** A word placed after `pre` and a run of white space is still a whole
      word there, and a word that begins after the run is one of the rest. */
  lemma WordAtShift(pre: string, gap: string, r: string, w: string, i: nat)
    requires gap != [] && AllSpace(gap)
    ensures WordAt(pre + gap + r, w, i + |pre| + |gap|) <==> WordAt(r, w, i)
  {
    var t := pre + gap + r;
    var m := |pre| + |gap|;
    assert t[m..] == r;
    if i + |w| <= |r| {
      assert t[i + m..i + m + |w|] == r[i..i + |w|];
      assert i == 0 ==> t[i + m - 1] == gap[|gap| - 1];
      assert i > 0 ==> t[i + m - 1] == r[i - 1];
      assert i + |w| < |r| ==> t[i + m + |w|] == r[i + |w|];
    }
  }

  /** Inside a text without white space the only whole word is the text. */
  lemma WordOfUnspaced(cur: string, w: string)
    requires NoSpace(cur) && w != []
    ensures WholeWord(cur, w) <==> w == cur
  {
    if w == cur {
      assert WordAt(cur, w, 0);
    }
    if WholeWord(cur, w) {
      var i :| WordAt(cur, w, i);
      assert i == 0;
      assert i + |w| == |cur|;
      assert w == cur[..|cur|];
    }
  }

  /** No letter of a whole word without white space is white space. */
  lemma WordLetters(t: string, w: string, i: int)
    requires WordAt(t, w, i) && NoSpace(w)
    ensures forall p :: i <= p < i + |w| ==> !IsJsSpace(t[p])
  {
    forall p | i <= p < i + |w|
      ensures !IsJsSpace(t[p])
    {
      assert t[p] == t[i..i + |w|][p - i];
    }
  }

  /** A whole word of `cur + gap + r` that lies before the gap is `cur`;
      one that lies after it is a whole word of `r`. */
  lemma WordAcrossGap(cur: string, gap: string, r: string, w: string)
    requires NoSpace(cur) && gap != [] && AllSpace(gap) && w != [] && NoSpace(w)
    requires WholeWord(cur + gap + r, w)
    ensures w == cur || WholeWord(r, w)
  {
    var t := cur + gap + r;
    var i :| WordAt(t, w, i);
    WordLetters(t, w, i);
    if i < |cur| {
      assert IsJsSpace(t[|cur|]) by {
        assert t[|cur|] == gap[0];
      }
      assert i + |w| <= |cur|;
      assert i == 0;
      assert i + |w| == |cur|;
      assert w == t[..|cur|];
      assert t[..|cur|] == cur;
    } else {
      assert !IsJsSpace(t[i]);
      assert t[i] == (gap + r)[i - |cur|];
      assert i >= |cur| + |gap|;
      WordAtShift(cur, gap, r, w, i - |cur| - |gap|);
    }
  }

  /** `cur` and the whole words after the gap are whole words of `cur + gap + r`. */
  lemma WordBesideGap(cur: string, gap: string, r: string, w: string)
    requires gap != [] && AllSpace(gap) && w != []
    requires w == cur || WholeWord(r, w)
    ensures WholeWord(cur + gap + r, w)
  {
    var t := cur + gap + r;
    if w == cur {
      assert t[..|cur|] == cur;
      assert t[|cur|] == gap[0];
      assert WordAt(t, w, 0);
    } else {
      var i :| WordAt(r, w, i);
      WordAtShift(cur, gap, r, w, i);
    }
  }

  /** The words the split yields, apart from the empty one, are exactly the
      whole words of the text; `cur` is a word already begun at the start. */
  lemma {:induction false} SplitFromWords(s: string, cur: string, w: string)
    requires NoSpace(cur) && w != [] && NoSpace(w)
    ensures w in SplitFrom(s, cur) <==> WholeWord(cur + s, w)
    decreases |s|
  {
    var t := cur + s;
    if s == [] {
      assert t == cur;
      WordOfUnspaced(cur, w);
    } else if IsJsSpace(s[0]) {
      var k := LeadingSpaces(s);
      var gap := s[..k];
      var r := s[k..];
      assert t == cur + gap + r;
      SplitFromWords(r, [], w);
      assert [] + r == r;
      assert SplitFrom(s, cur) == [cur] + SplitFrom(r, []);
      if WholeWord(t, w) {
        WordAcrossGap(cur, gap, r, w);
      }
      if w == cur || WholeWord(r, w) {
        WordBesideGap(cur, gap, r, w);
      }
    } else {
      SplitFromWords(s[1..], cur + [s[0]], w);
      assert (cur + [s[0]]) + s[1..] == t;
      assert SplitFrom(s, cur) == SplitFrom(s[1..], cur + [s[0]]);
    }
  }

  /** A non-empty word without white space is among the words of a text
      exactly when it stands in the text as a whole word. */
  lemma SplitWords(s: string, w: string)
    requires w != [] && NoSpace(w)
    ensures w in Split(s) <==> WholeWord(s, w)
  {
    SplitFromWords(s, [], w);
    assert [] + s == s;
  }

  /** The words of a message, as the assistant reads it. */
  function Words(text: string): (words: seq<string>)
    ensures forall w :: w in words ==> NoSpace(w)
    ensures forall w :: w != [] && NoSpace(w) ==> (w in words <==> WholeWord(LowerText(text), w))
  {
    var words := Split(LowerText(text));
    assert forall w | w != [] && NoSpace(w) :: w in words <==> WholeWord(LowerText(text), w) by {
      forall w | w != [] && NoSpace(w)
        ensures w in words <==> WholeWord(LowerText(text), w)
      {
        SplitWords(LowerText(text), w);
      }
    }
    words
  }

  // ---------------------------------------------------------------- cities

  const KnownCities: seq<string> :=
    ["Managua", "Estelí", "León", "Matagalpa", "Chinandega", "Masaya", "Jinotega", "Rivas", "Granada"]

  lemma CitiesDistinct()
    ensures forall i, j :: 0 <= i < j < |KnownCities| ==> KnownCities[i] != KnownCities[j]
  {
  }

  /** The city at position `k` of the list is named, in lower case, by a word. */
  predicate Mentioned(words: seq<string>, k: nat)
    requires k < |KnownCities|
  {
    LowerText(KnownCities[k]) in words
  }

  /** The first listed city in positions from `from` up to `bound` that the words mention. */
  function NextCity(words: seq<string>, from: nat, bound: nat): (r: Option<nat>)
    requires from <= bound <= |KnownCities|
    ensures r.Some? ==> from <= r.value < bound && Mentioned(words, r.value)
    ensures r.Some? ==> forall j :: from <= j < r.value ==> !Mentioned(words, j)
    ensures r.None? ==> forall j :: from <= j < bound ==> !Mentioned(words, j)
    decreases bound - from
  {
    if from == bound then None
    else if Mentioned(words, from) then Some(from)
    else NextCity(words, from + 1, bound)
  }

  /** Looking at one more city changes the first one found only when none was. */
  lemma {:induction false} NextCityStep(words: seq<string>, from: nat, bound: nat)
    requires from <= bound < |KnownCities|
    ensures NextCity(words, from, bound + 1)
            == if NextCity(words, from, bound).Some? then NextCity(words, from, bound)
               else if Mentioned(words, bound) then Some(bound) else None
    decreases bound - from
  {
    if from < bound && !Mentioned(words, from) {
      NextCityStep(words, from + 1, bound);
    }
  }

  function CityAt(k: Option<nat>): (c: Option<string>)
    requires k.Some? ==> k.value < |KnownCities|
  {
    match k
    case Some(i) => Some(KnownCities[i])
    case None => None
  }

  /** Origin: the first city of the list (not of the message) among the
      words. Destination: the next listed city among the words after it. */
  datatype Places = Places(origin: Option<string>, destination: Option<string>)

  /** The places found among the first `n` cities of the list. */
  function PlacesAmong(words: seq<string>, n: nat): (p: Places)
    requires n <= |KnownCities|
    ensures p.destination.Some? ==> p.origin.Some? && p.destination != p.origin
  {
    match NextCity(words, 0, n)
    case None => Places(None, None)
    case Some(i) =>
      CitiesDistinct();
      Places(Some(KnownCities[i]), CityAt(NextCity(words, i + 1, n)))
  }

  function PlacesOf(words: seq<string>): (p: Places)
    ensures p.destination.Some? ==> p.origin.Some? && p.destination != p.origin
  {
    PlacesAmong(words, |KnownCities|)
  }

  /** The scan over the city list that sets origin and destination; it
      agrees with `PlacesOf`. */
  method LocateCities(words: seq<string>) returns (origin: Option<string>, destination: Option<string>)
    ensures Places(origin, destination) == PlacesOf(words)
  {
    origin := None;
    destination := None;
    for i := 0 to |KnownCities|
      invariant Places(origin, destination) == PlacesAmong(words, i)
    {
      var city := KnownCities[i];
      ScanStep(words, i);
      if LowerText(city) in words {
        if origin.None? {
          origin := Some(city);
        } else if destination.None? && city != origin.value {
          destination := Some(city);
        }
      }
    }
  }

  /** One step of the scan: what the city at position `n` adds. */
  lemma ScanStep(words: seq<string>, n: nat)
    requires n < |KnownCities|
    ensures var p := PlacesAmong(words, n);
            var city := KnownCities[n];
            PlacesAmong(words, n + 1)
            == if !Mentioned(words, n) then p
               else if p.origin.None? then Places(Some(city), None)
               else if p.destination.None? && city != p.origin.value then Places(p.origin, Some(city))
               else p
  {
    CitiesDistinct();
    NextCityStep(words, 0, n);
    match NextCity(words, 0, n)
    case None =>
      assert NextCity(words, n + 1, n + 1) == None;
    case Some(o) =>
      NextCityStep(words, o + 1, n);
      assert KnownCities[o] != KnownCities[n];
  }

  /** Every city name is one word in lower case. */
  lemma CityNamesAreWords(k: nat)
    requires k < |KnownCities|
    ensures LowerText(KnownCities[k]) != [] && NoSpace(LowerText(KnownCities[k]))
  {
    var c := KnownCities[k];
    assert c != [] && NoSpace(c) by {
      if k < 3 {
      } else if k < 6 {
      } else {
      }
    }
    LowerKeepsSpaces(c);
  }

  /** A city counts as mentioned only where its name stands as a whole word
      in the lowered message. */
  lemma MentionedIsWholeWord(text: string, k: nat)
    requires k < |KnownCities|
    ensures Mentioned(Words(text), k) <==> WholeWord(LowerText(text), LowerText(KnownCities[k]))
  {
    CityNamesAreWords(k);
    SplitWords(LowerText(text), LowerText(KnownCities[k]));
  }

  // ---------------------------------------------------------------- intent

  datatype Intent = Ruta | Horario | Parada

  /** The keyword tests in the order they run, each later match overriding
      the earlier ones. */
  function IntentOf(words: seq<string>): (r: Option<Intent>)
    ensures r == Some(Parada) <==> "parada" in words
    ensures r == Some(Horario) <==> "parada" !in words && ("horario" in words || "salida" in words)
    ensures r == Some(Ruta) <==> "parada" !in words && "horario" !in words && "salida" !in words
                                 && ("ruta" in words || "ir" in words)
    ensures r.None? <==> forall kw :: kw in IntentWords ==> kw !in words
  {
    var byRoute := if "ruta" in words || "ir" in words then Some(Ruta) else None;
    var bySchedule := if "horario" in words || "salida" in words then Some(Horario) else byRoute;
    if "parada" in words then Some(Parada) else bySchedule
  }

  const IntentWords: set<string> := {"ruta", "ir", "horario", "salida", "parada"}

  /** The keywords by rank: the intent is that of the best-ranked keyword present. */
  const RankedKeywords: seq<(string, Intent)> :=
    [("parada", Parada), ("horario", Horario), ("salida", Horario), ("ruta", Ruta), ("ir", Ruta)]

  function RankedIntent(words: seq<string>): Option<Intent> {
    match FindFirst(RankedKeywords, (kw: (string, Intent)) => kw.0 in words)
    case Some(i) => Some(RankedKeywords[i].1)
    case None => None
  }

  /** The overriding tests pick the best-ranked keyword. */
  lemma IntentIsRanked(words: seq<string>)
    ensures IntentOf(words) == RankedIntent(words)
  {
    var p := (kw: (string, Intent)) => kw.0 in words;
    var f := FindFirst(RankedKeywords, p);
    if f.Some? {
      assert p(RankedKeywords[f.value]);
    } else {
      assert !p(RankedKeywords[0]) && !p(RankedKeywords[1]) && !p(RankedKeywords[2]);
      assert !p(RankedKeywords[3]) && !p(RankedKeywords[4]);
    }
  }

  // ---------------------------------------------------------------- replies

  const Apology := "Lo siento, no tengo datos suficientes para esa consulta."

  /** What a message asks for: a lookup for a recognised intent, with the
      region it names, or nothing the assistant can answer. */
  datatype Query = Unanswerable | Lookup(intent: Intent, region: Option<string>)

  /** The query a trimmed message makes. Route and schedule questions take
      the origin, or else the destination, as region; stop questions take
      the origin. */
  function Interpret(text: string): (q: Query)
    ensures q.Unanswerable? <==> IntentOf(Words(text)).None?
    ensures q.Lookup? ==> q.intent == IntentOf(Words(text)).value
  {
    var words := Words(text);
    var places := PlacesOf(words);
    match IntentOf(words)
    case None => Unanswerable
    case Some(Parada) => Lookup(Parada, places.origin)
    case Some(k) => Lookup(k, if places.origin.Some? then places.origin else places.destination)
  }

  /** Since a destination is only ever found after an origin, every lookup's
      region is the origin. */
  lemma RegionIsOrigin(text: string)
    requires Interpret(text).Lookup?
    ensures Interpret(text).region == PlacesOf(Words(text)).origin
  {
    var places := PlacesOf(Words(text));
    assert places.origin.None? ==> places.destination.None?;
  }

  /** The reply to a query: what the lookup produced, or the apology when
      the intent was not recognised or the lookup gave nothing. */
  function Answer(q: Query, lookup: Query -> Option<string>): (reply: string)
    ensures q.Unanswerable? ==> reply == Apology
    ensures q.Lookup? && lookup(q).None? ==> reply == Apology
    ensures q.Lookup? && lookup(q).Some? ==> reply == lookup(q).value
  {
    if q.Lookup? && lookup(q).Some? then lookup(q).value else Apology
  }

  datatype Sender = User | Bot

  datatype Message = Message(text: string, sender: Sender)

  datatype Chat = Chat(messages: seq<Message>, input: string)

  /** Sending the input box: a blank input changes nothing; otherwise the
      trimmed text is posted as the user's message, the box is cleared and
      the assistant's reply follows. */
  function SendMessage(c: Chat, lookup: Query -> Option<string>): (r: Chat)
    ensures AllSpace(c.input) <==> r == c
    ensures !AllSpace(c.input) ==> r.input == [] && |r.messages| == |c.messages| + 2
    ensures !AllSpace(c.input) ==> r.messages[..|c.messages|] == c.messages
    ensures !AllSpace(c.input) ==> r.messages[|c.messages|] == Message(Trim(c.input), User)
    ensures !AllSpace(c.input) ==> r.messages[|c.messages| + 1].sender == Bot
  {
    TrimEmptyIffBlank(c.input);
    var text := Trim(c.input);
    if text == [] then c
    else
      var reply := Answer(Interpret(text), lookup);
      Chat(c.messages + [Message(text, User), Message(reply, Bot)], [])
  }

  /** The reply is the answer to what the posted text asks. */
  lemma SendMessageAnswers(c: Chat, lookup: Query -> Option<string>)
    requires !AllSpace(c.input)
    ensures var r := SendMessage(c, lookup);
            r.messages[|c.messages| + 1].text == Answer(Interpret(r.messages[|c.messages|].text), lookup)
  {
    TrimEmptyIffBlank(c.input);
    var text := Trim(c.input);
    var reply := Answer(Interpret(text), lookup);
    var posted := [Message(text, User), Message(reply, Bot)];
    assert SendMessage(c, lookup).messages == c.messages + posted;
    assert (c.messages + posted)[|c.messages|] == posted[0];
    assert (c.messages + posted)[|c.messages| + 1] == posted[1];
  }
}

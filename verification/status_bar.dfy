/** The label helpers of `src/components/StatusBar.tsx`: emotion emoji,
    satiety and drowsiness bands, the activity badge, and which emotion is
    displayed. JavaScript numbers are modelled as reals (NaN is not). */
module StatusBar {
  import opened Types
  import opened Text
  import Chat

  /** An emoji with its caption. */
  datatype Label = Label(emoji: string, caption: string)

  // ---------------------------------------------------------------------------
  // Emotion

  /** The `EMOTION_EMOJI` table. */
  const EmotionEmojiTable: map<string, string> := map[
    "기쁨" := "😊",
    "행복" := "😄",
    "슬픔" := "😢",
    "분노" := "😠",
    "놀람" := "😲",
    "공포" := "😨",
    "혐오" := "🤢",
    "당황" := "😳",
    "걱정" := "😟",
    "평온" := "😌",
    "설렘" := "💕",
    "지루함" := "😑",
    "피곤" := "😴",
    "궁금" := "🤔",
    "감동" := "🥹",
    "짜증" := "😤",
    "부끄러움" := "🫣",
    "만족" := "😊"
  ]

  /** Shown for a missing, empty or unknown emotion. */
  const NeutralEmoji: string := "😐"

  /** A fact about the table constant, not a property of all inputs: every
      emoji in it is non-empty, so in `EmotionEmoji` a listed emotion never
      falls through to the neutral face. */
  lemma TableEntriesNonEmpty()
    ensures forall k :: k in EmotionEmojiTable ==> EmotionEmojiTable[k] != ""
  {
  }

  /** `getEmotionEmoji`: the table's emoji for a listed emotion, the neutral
      face otherwise. */
  function EmotionEmoji(emotion: Option<string>): (e: string)
    ensures !Truthy(emotion) ==> e == NeutralEmoji
    ensures Truthy(emotion) && emotion.value in EmotionEmojiTable ==> e == EmotionEmojiTable[emotion.value]
    ensures Truthy(emotion) && emotion.value !in EmotionEmojiTable ==> e == NeutralEmoji
  {
    if !Truthy(emotion) then NeutralEmoji
    else
      var found := if emotion.value in EmotionEmojiTable then EmotionEmojiTable[emotion.value] else "";
      TableEntriesNonEmpty();
      if found == "" then NeutralEmoji else found
  }

  /** `currentEmotion || status?.emotion`: the streamed emotion when there is
      a non-empty one, else the polled one. */
  function DisplayedEmotion(currentEmotion: Option<string>, status: Option<CharacterState>): (r: Option<string>)
    ensures Truthy(currentEmotion) ==> r == currentEmotion
    ensures !Truthy(currentEmotion) && status.None? ==> r.None?
    ensures !Truthy(currentEmotion) && status.Some? ==> r == status.value.emotion
  {
    if Truthy(currentEmotion) then currentEmotion
    else if status.Some? then status.value.emotion
    else None
  }

  /** After an `inner_state` event with an emotion, the status bar shows that
      emotion, whatever the polled status says. */
  lemma StreamedEmotionWins(s: Chat.Session, assistantId: string, inner: InnerState, status: Option<CharacterState>)
    requires Chat.HasEmotion(inner)
    ensures var r := Chat.HandleSSEEvent(s, assistantId, Inner(inner));
      DisplayedEmotion(r.currentEmotion, status) == inner.emotion
  {
  }

  // ---------------------------------------------------------------------------
  // Bands

  /** `getHungerLabel` over satiety: the first band whose threshold is met. */
  function HungerLabel(satiety: real): (l: Label)
    ensures l.caption == "배부름" <==> satiety >= 80.0
    ensures l.caption == "적당" <==> 50.0 <= satiety < 80.0
    ensures l.caption == "출출" <==> 30.0 <= satiety < 50.0
    ensures l.caption == "배고픔" <==> satiety < 30.0
    ensures l.emoji == (if satiety >= 30.0 then "🍽️" else "😋")
  {
    if satiety >= 80.0 then Label("🍽️", "배부름")
    else if satiety >= 50.0 then Label("🍽️", "적당")
    else if satiety >= 30.0 then Label("🍽️", "출출")
    else Label("😋", "배고픔")
  }

  /** How full a hunger label says the character is, from 0 (hungry) to 3
      (full). */
  function Fullness(l: Label): nat
  {
    if l.caption == "배부름" then 3
    else if l.caption == "적당" then 2
    else if l.caption == "출출" then 1
    else 0
  }

  /** More satiety never reads as hungrier. */
  lemma HungerMonotone(a: real, b: real)
    requires a <= b
    ensures Fullness(HungerLabel(a)) <= Fullness(HungerLabel(b))
  {
  }

  /** `getDrowsinessLabel` over the drowsiness level. */
  function DrowsinessLabel(level: real): (l: Label)
    ensures l == Label("😴", "졸림") <==> level >= 3.0
    ensures l == Label("🥱", "나른") <==> 2.0 <= level < 3.0
    ensures l == Label("😪", "약간") <==> 1.0 <= level < 2.0
    ensures l == Label("✨", "맑음") <==> level < 1.0
  {
    if level >= 3.0 then Label("😴", "졸림")
    else if level >= 2.0 then Label("🥱", "나른")
    else if level >= 1.0 then Label("😪", "약간")
    else Label("✨", "맑음")
  }

  /** How sleepy a drowsiness label says the character is, 0 to 3. */
  function Sleepiness(l: Label): nat
  {
    if l.caption == "졸림" then 3
    else if l.caption == "나른" then 2
    else if l.caption == "약간" then 1
    else 0
  }

  /** A higher level never reads as less sleepy. */
  lemma DrowsinessMonotone(a: real, b: real)
    requires a <= b
    ensures Sleepiness(DrowsinessLabel(a)) <= Sleepiness(DrowsinessLabel(b))
  {
  }

  // ---------------------------------------------------------------------------
  // Activity

  const Eating: Label := Label("🍚", "식사 중")
  const Exercising: Label := Label("🏃", "운동 중")
  const Watching: Label := Label("📺", "유튜브")
  /** Emoji of the fallback badge, which shows the activity text as written. */
  const OtherEmoji: string := "🎯"

  /** The lower-cased text mentions one of two keywords. */
  predicate Mentions(lower: string, a: string, b: string)
  {
    Includes(lower, a) || Includes(lower, b)
  }

  predicate MentionsEating(lower: string) { Mentions(lower, "eat", "식사") }
  predicate MentionsExercise(lower: string) { Mentions(lower, "exercis", "운동") }
  predicate MentionsYoutube(lower: string) { Mentions(lower, "youtube", "유튜브") }
  predicate MentionsSleep(lower: string) { Mentions(lower, "sleep", "nap") }

  /** `getActivityLabel`: nothing for a missing or empty activity; otherwise
      the first category whose keyword the lower-cased text contains, in the
      order meal, exercise, video, sleep (which shows no badge); otherwise a
      generic badge with the text as written. */
  function ActivityLabel(activity: Option<string>): (r: Option<Label>)
    ensures !Truthy(activity) ==> r.None?
    ensures Truthy(activity) ==>
      var lower := ToLower(activity.value);
      && (MentionsEating(lower) ==> r == Some(Eating))
      && (!MentionsEating(lower) && MentionsExercise(lower) ==> r == Some(Exercising))
      && (!MentionsEating(lower) && !MentionsExercise(lower) && MentionsYoutube(lower) ==> r == Some(Watching))
      && (!MentionsEating(lower) && !MentionsExercise(lower) && !MentionsYoutube(lower) ==>
            r == (if MentionsSleep(lower) then None else Some(Label(OtherEmoji, activity.value))))
  {
    if !Truthy(activity) then None
    else
      var lower := ToLower(activity.value);
      if MentionsEating(lower) then Some(Eating)
      else if MentionsExercise(lower) then Some(Exercising)
      else if MentionsYoutube(lower) then Some(Watching)
      else if MentionsSleep(lower) then None
      else Some(Label(OtherEmoji, activity.value))
  }

  /** Matching ignores ASCII case: an activity and its lower-cased spelling
      get the same badge, except that the generic badge repeats the text as
      written. */
  lemma ActivityIgnoresCase(text: string)
    requires text != ""
    ensures var a := ActivityLabel(Some(text));
      var b := ActivityLabel(Some(ToLower(text)));
      && (a.None? <==> b.None?)
      && (a.Some? && a.value.emoji != OtherEmoji ==> a == b)
      && (a.Some? ==> a.value.emoji == b.value.emoji)
  {
    ToLowerIdempotent(text);
    assert |ToLower(text)| == |text|;
  }

  /** A meal keyword wins even when the text also mentions sleep. */
  lemma MealBeforeSleep(text: string)
    requires text != ""
    requires MentionsEating(ToLower(text)) && MentionsSleep(ToLower(text))
    ensures ActivityLabel(Some(text)) == Some(Eating)
  {
  }

  /** An illustration of `ActivityLabel` with `IncludesIff`, not a property
      of all inputs: keywords match anywhere inside a word, so "Theater",
      which contains "eat", shows the meal badge. */
  lemma KeywordInsideWord()
    ensures ActivityLabel(Some("Theater")) == Some(Eating)
  {
    assert ToLower("Theater") == "theater";
    assert Occurs("theater", "eat", 2);
    IncludesIff("theater", "eat");
  }
}

/**
 * The fixed table of the seven Valentine-week days the page shows, in card
 * order. Each record carries its ordinal (1..7), its calendar date (one-based
 * month), the title and emoji, the message variants (each a list of lines),
 * the colour theme and the visual tag. Non-ASCII text is written with
 * Unicode escapes.
 */
module DayTable {
  import opened Options

  datatype FloatMode = Petals | Hearts

  datatype VisualKind = Rose | Ring | Chocolate | Teddy | Promise | Hug | Valentine

  /** Colour tokens and the kind of particles floating in the background. */
  datatype DayTheme = DayTheme(tint1: string, tint2: string, tint3: string,
                               floatA: string, floatB: string, floatMode: FloatMode)

  /** The visual tag: its caption (`label` in the page) and kind. */
  datatype Visual = Visual(caption: string, kind: VisualKind)

  /** A calendar date with a ONE-based month, as the table writes it. */
  datatype MonthDay = MonthDay(month: int, day: int)

  datatype Day = Day(index: int, date: MonthDay, title: string, emoji: string,
                     messages: seq<seq<string>>, theme: DayTheme, visual: Visual)

  /** Day 1, Feb 7. */
  const RoseDay: Day := Day(
    index := 1,
    date := MonthDay(2, 7),
    title := "Rose Day",
    emoji := "\U{1F339}",
    messages := [
      [
        "A rose doesn\U{2019}t ask to be perfect,",
        "it just opens\U{2014}soft and honest.",
        "Today I\U{2019}m sending you something simple:",
        "a quiet hello, and a little warmth."
      ],
      [
        "Like a rose blooming in the frost,",
        "some things are beautiful because they last.",
        "Just a small reminder today:",
        "you are deeply appreciated."
      ],
      [
        "Fragrance stays on the hand that gives roses.",
        "Today, I'm just sending the petals your way.",
        "No reason needed.",
        "Just a soft thought for you."
      ]
    ],
    theme := DayTheme("hsl(332 92% 84% / 0.85)", "hsl(6 90% 86% / 0.65)", "hsl(278 92% 90% / 0.55)", "hsl(338 88% 70%)", "hsl(18 92% 72%)", Petals),
    visual := Visual("A tiny rose bloom", Rose)
  )

  /** Day 2, Feb 8. */
  const ProposeDay: Day := Day(
    index := 2,
    date := MonthDay(2, 8),
    title := "Propose Day",
    emoji := "\U{1F48D}",
    messages := [
      [
        "Not a big question.",
        "Just a gentle one:",
        "can I keep choosing you\U{2014}",
        "in small ways, every day?"
      ],
      [
        "I'm not asking for forever yet.",
        "I'm just asking for right now.",
        "To let me be the one who listens,",
        "and the one who stays."
      ],
      [
        "Life is full of noise.",
        "In the middle of it all,",
        "I'm proposing a little silence with you.",
        "Just us, being exactly who we are."
      ]
    ],
    theme := DayTheme("hsl(332 95% 88% / 0.75)", "hsl(210 95% 88% / 0.55)", "hsl(280 92% 92% / 0.55)", "hsl(330 92% 72%)", "hsl(276 90% 78%)", Hearts),
    visual := Visual("A soft ring sparkle", Ring)
  )

  /** Day 3, Feb 9. */
  const ChocolateDay: Day := Day(
    index := 3,
    date := MonthDay(2, 9),
    title := "Chocolate Day",
    emoji := "\U{1F36B}",
    messages := [
      [
        "Some sweetness belongs to moments,",
        "not just chocolate.",
        "If today feels heavy,",
        "I hope this brings a light little smile."
      ],
      [
        "A little bit of sweetness,",
        "to balance out the day.",
        "Think of this as a virtual treat,",
        "made specifically to make you grin."
      ],
      [
        "Life is like a box of chocolates,",
        "but I already know which one is my favorite.",
        "It's the one that matches your smile.",
        "Stay sweet today."
      ]
    ],
    theme := DayTheme("hsl(28 92% 86% / 0.75)", "hsl(332 92% 88% / 0.55)", "hsl(190 92% 88% / 0.45)", "hsl(22 84% 70%)", "hsl(330 84% 72%)", Hearts),
    visual := Visual("A cocoa swirl", Chocolate)
  )

  /** Day 4, Feb 10. */
  const TeddyDay: Day := Day(
    index := 4,
    date := MonthDay(2, 10),
    title := "Teddy Day",
    emoji := "\U{1F9F8}",
    messages := [
      [
        "If you could use a softer day,",
        "pretend this is a warm, friendly hug.",
        "No pressure.",
        "Just comfort, from me to you."
      ],
      [
        "Something soft to hold onto,",
        "even if it's just a thought.",
        "May your day be as fuzzy",
        "and kind as a teddy's heart."
      ],
      [
        "A teddy bear doesn't need words,",
        "it just needs to be there.",
        "I'm right here in the background,",
        "cheering for you silently."
      ]
    ],
    theme := DayTheme("hsl(35 85% 88% / 0.78)", "hsl(332 92% 90% / 0.52)", "hsl(265 92% 92% / 0.48)", "hsl(34 80% 72%)", "hsl(290 82% 78%)", Petals),
    visual := Visual("A teddy heart", Teddy)
  )

  /** Day 5, Feb 11. */
  const PromiseDay: Day := Day(
    index := 5,
    date := MonthDay(2, 11),
    title := "Promise Day",
    emoji := "\U{1F91E}",
    messages := [
      [
        "I can\U{2019}t promise perfect.",
        "But I can promise honest.",
        "I\U{2019}ll be kind with your heart,",
        "and careful with your name."
      ],
      [
        "A promise isn't a weight,",
        "it's a foundation.",
        "I promise to keep showing up,",
        "exactly as I am, for exactly who you are."
      ],
      [
        "Small promises matter most.",
        "I promise to listen when you're quiet,",
        "and to celebrate when you're loud.",
        "You can count on that."
      ]
    ],
    theme := DayTheme("hsl(266 95% 90% / 0.78)", "hsl(200 92% 90% / 0.50)", "hsl(332 92% 90% / 0.44)", "hsl(270 86% 76%)", "hsl(210 86% 76%)", Hearts),
    visual := Visual("A promise ribbon", Promise)
  )

  /** Day 6, Feb 12. */
  const HugDay: Day := Day(
    index := 6,
    date := MonthDay(2, 12),
    title := "Hug Day",
    emoji := "\U{1F90D}",
    messages := [
      [
        "Some feelings grow quietly,",
        "like this one.",
        "No rush.",
        "Just something I wanted you to feel today."
      ],
      [
        "A hug is a handshake from the heart.",
        "Sending you a warm one across the screen.",
        "May it make your shoulders drop,",
        "and your heart feel light."
      ],
      [
        "Sometimes words are too much.",
        "A quiet hug says everything needed.",
        "I'm sending you that peace today.",
        "Take a deep breath. You're doing great."
      ]
    ],
    theme := DayTheme("hsl(20 92% 88% / 0.78)", "hsl(332 92% 90% / 0.52)", "hsl(48 92% 90% / 0.44)", "hsl(18 88% 72%)", "hsl(332 88% 72%)", Petals),
    visual := Visual("A warm embrace", Hug)
  )

  /** Day 7, Feb 14. */
  const ValentinesDay: Day := Day(
    index := 7,
    date := MonthDay(2, 14),
    title := "Valentine\U{2019}s Day",
    emoji := "\U{2764}\U{FE0F}",
    messages := [
      [
        "If you made it here, thank you.",
        "I don\U{2019}t want to rush you, ever.",
        "I just wanted you to know\U{2014}",
        "you\U{2019}re genuinely special to me.",
        "No expectations. Just honesty."
      ],
      [
        "Love is a journey, not a destination.",
        "I'm glad our paths crossed this week.",
        "Whatever happens next,",
        "I'm grateful for these seven days."
      ],
      [
        "Happy Valentine's Day.",
        "You deserve all the beauty in the world.",
        "I hope this week made you feel seen,",
        "and loved, just as you are."
      ]
    ],
    theme := DayTheme("hsl(332 96% 84% / 0.75)", "hsl(276 96% 86% / 0.60)", "hsl(210 96% 86% / 0.50)", "hsl(332 92% 66%)", "hsl(276 88% 70%)", Hearts),
    visual := Visual("A final heart", Valentine)
  )

  /** The table in card order. */
  const Days: seq<Day> := [RoseDay, ProposeDay, ChocolateDay, TeddyDay, PromiseDay, HugDay, ValentinesDay]

  /** Record dates strictly increase along the table. */
  ghost predicate DatesIncreasing(ds: seq<Day>) {
    forall i, j :: 0 <= i < j < |ds| ==>
      ds[i].date.month < ds[j].date.month
      || (ds[i].date.month == ds[j].date.month && ds[i].date.day < ds[j].date.day)
  }

  /** Every record has at least one variant and every variant at least one line. */
  ghost predicate MessagesNonEmpty(d: Day) {
    |d.messages| > 0 && forall v :: 0 <= v < |d.messages| ==> |d.messages[v]| > 0
  }

  /**
   * The shape the page relies on: seven records, position `i` holding index
   * `i + 1`, all dated in February, dates increasing, messages present.
   */
  ghost predicate WellFormed(ds: seq<Day>) {
    && |ds| == 7
    && (forall i :: 0 <= i < |ds| ==> ds[i].index == i + 1)
    && (forall i :: 0 <= i < |ds| ==> ds[i].date.month == 2)
    && DatesIncreasing(ds)
    && (forall i :: 0 <= i < |ds| ==> MessagesNonEmpty(ds[i]))
  }

  /** Position `i` holds index `i + 1`. */
  lemma DaysIndices()
    ensures |Days| == 7
    ensures forall i :: 0 <= i < |Days| ==> Days[i].index == i + 1
  {
  }

  /** The dates in the table: Feb 7 to Feb 12, then Feb 14 (Feb 13 has no record). */
  lemma DaysDates()
    ensures forall i :: 0 <= i < 6 ==> Days[i].date == MonthDay(2, 7 + i)
    ensures Days[6].date == MonthDay(2, 14)
  {
  }

  /** Every record offers three variants, none of them empty. */
  lemma DaysMessages()
    ensures forall i :: 0 <= i < |Days| ==> |Days[i].messages| == 3
    ensures forall i :: 0 <= i < |Days| ==> MessagesNonEmpty(Days[i])
  {
    forall i | 0 <= i < |Days| ensures |Days[i].messages| == 3 && MessagesNonEmpty(Days[i]) {
      assert |Days[i].messages| == 3;
      assert forall v :: 0 <= v < 3 ==> |Days[i].messages[v]| >= 4;
    }
  }

  /** The table has that shape. */
  lemma DaysWellFormed()
    ensures WellFormed(Days)
  {
    DaysIndices();
    DaysDates();
    DaysMessages();
  }

  /** Looking a record up by its index (`DAYS[i - 1]`); out-of-range indices find nothing. */
  function GetDay(index: int): (r: Option<Day>)
    ensures r.Some? <==> 1 <= index <= |Days|
    ensures r.Some? ==> r.value in Days && r.value.index == index
  {
    if 1 <= index <= |Days| then Some(Days[index - 1]) else None
  }

  /** The variant shown when a day is opened; `pick` stands for the random draw in `[0, |messages|)`. */
  function ChosenMessage(d: Day, pick: int): (r: seq<string>)
    requires 0 <= pick < |d.messages|
    ensures r in d.messages
    ensures MessagesNonEmpty(d) ==> |r| > 0
  {
    d.messages[pick]
  }
}

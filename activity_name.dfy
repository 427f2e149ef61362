/**
 * Activity-name normalisation (`updateActivityName`): lower-case, snake-case,
 * and rewrite the one exact token `poweroff` to the sentinel `off`.
 */
module ActivityName {

  import opened Wrappers
  import opened Text

  const Off: string := "off"

  /** The canonical form of a raw (non-nil) activity name: lower case, and never `poweroff`. */
  function Canonical(raw: string): (name: string)
    ensures NoUpper(name) && name != "poweroff"
  {
    var token := SnakeCase(Lower(raw));
    SnakeCaseKeepsLowerCase(Lower(raw));
    if token == "poweroff" then Off else token
  }

  /**
   * A canonical name is the words of the lower-cased name joined by single
   * underscores; the only name rewritten is the single word `poweroff`,
   * which becomes `off`.
   */
  lemma CanonicalKeepsWords(raw: string)
    ensures var name := Canonical(raw);
      && SnakeShaped(name)
      && (name == Off || Words(name) == Words(Lower(raw)))
      && (name == Off ==> Words(Lower(raw)) == ["poweroff"] || Words(Lower(raw)) == [Off])
  {
    SnakeCaseShaped(Lower(raw));
    assert NoSeparator(Off);
    WordsOfWord("poweroff");
    WordsOfWord(Off);
  }

  predicate IsCanonical(name: string) {
    Canonical(name) == name
  }

  lemma OffIsCanonical()
    ensures Canonical(Off) == Off
  {
    assert Lower(Off) == Off;
    WordsOfWord(Off);
  }

  /** Normalisation is idempotent: every name it produces is canonical. */
  lemma CanonicalIdempotent(raw: string)
    ensures IsCanonical(Canonical(raw))
  {
    var token := SnakeCase(Lower(raw));
    if token == "poweroff" {
      OffIsCanonical();
    } else {
      SnakeCaseKeepsLowerCase(Lower(raw));
      assert Lower(token) == token;
      SnakeCaseIdempotent(Lower(raw));
    }
  }

  /** `updateActivityName`: nil stays nil, any string becomes its canonical form. */
  function UpdateActivityName(name: Option<string>): (r: Option<string>)
    ensures r.None? <==> name.None?
    ensures r.Some? ==> r.value == Canonical(name.value) && IsCanonical(r.value)
  {
    match name
    case None => None
    case Some(raw) => CanonicalIdempotent(raw); Some(Canonical(raw))
  }

  lemma LivingRoomLowered()
    ensures Lower("Living Room TV") == "living" + [' '] + ("room" + [' '] + "tv")
  {
    assert "Living Room TV" == "Living " + ("Room " + "TV");
    LowerConcat("Living ", "Room " + "TV");
    LowerConcat("Room ", "TV");
    assert Lower("Living ") == "living" + [' '];
    assert Lower("Room ") == "room" + [' '];
    assert Lower("TV") == "tv";
  }

  lemma LivingRoomWords()
    ensures Words("living" + [' '] + ("room" + [' '] + "tv")) == ["living", "room", "tv"]
  {
    WordsSplit("living", ' ', "room" + [' '] + "tv");
    WordsSplit("room", ' ', "tv");
    WordsOfWord("tv");
  }

  /** A multi-word name becomes its words joined by underscores. */
  lemma LivingRoomExample()
    ensures Canonical("Living Room TV") == "living_room_tv"
  {
    LivingRoomLowered();
    LivingRoomWords();
    var words := ["living", "room", "tv"];
    assert Join(words[2..]) == "tv";
    assert Join(words[1..]) == "room_tv";
    assert Join(words) == "living_room_tv";
  }

  lemma PoweroffIsOneWord()
    ensures SnakeCase("poweroff") == "poweroff"
  {
    WordsOfWord("poweroff");
  }

  lemma DecodedSlashLowered()
    ensures Lower("TV/Audio") == "tv" + ['/'] + "audio"
  {
    assert "TV/Audio" == "TV/" + "Audio";
    LowerConcat("TV/", "Audio");
    assert Lower("TV/") == "tv" + ['/'] && Lower("Audio") == "audio";
  }

  lemma EscapedSlashLowered()
    ensures Lower("TV%2FAudio") == "tv" + ['%'] + "2faudio"
  {
    assert "TV%2FAudio" == "TV%" + "2FAudio";
    LowerConcat("TV%", "2FAudio");
    assert Lower("TV%") == "tv" + ['%'] && Lower("2FAudio") == "2faudio";
  }

  /** A `/` separates words: the decoded name `TV/Audio` normalises to `tv_audio`. */
  lemma DecodedSlashExample()
    ensures Canonical("TV/Audio") == "tv_audio"
  {
    DecodedSlashLowered();
    WordsSplit("tv", '/', "audio");
    WordsOfWord("audio");
    assert Join(["tv", "audio"]) == "tv_audio";
  }

  /**
   * So does a `%`: under the ASCII stand-in for `snakeCase` the still-escaped
   * name `TV%2FAudio` normalises to `tv_2faudio`. lodash itself also splits
   * the digit run off and gives `tv_2_faudio`; neither equals `tv_audio`.
   */
  lemma EscapedSlashNameExample()
    ensures Canonical("TV%2FAudio") == "tv_2faudio"
  {
    EscapedSlashLowered();
    WordsSplit("tv", '%', "2faudio");
    WordsOfWord("2faudio");
    assert Join(["tv", "2faudio"]) == "tv_2faudio";
  }

  /** Spellings of `poweroff` with no separator reach the sentinel. */
  lemma PoweroffSpellings()
    ensures Canonical("POWEROFF") == Off && Canonical("PowerOff") == Off
    ensures Canonical("OFF") == Off
  {
    assert "POWEROFF" == "POWER" + "OFF" && "PowerOff" == "Power" + "Off";
    LowerConcat("POWER", "OFF");
    LowerConcat("Power", "Off");
    assert Lower("POWER") == "power" == Lower("Power");
    assert Lower("OFF") == Off == Lower("Off");
    assert "power" + Off == "poweroff";
    PoweroffIsOneWord();
    OffIsCanonical();
  }

  lemma PowerOffLowered()
    ensures Lower("Power Off") == "power" + [' '] + Off
  {
    assert "Power Off" == "Power " + "Off";
    LowerConcat("Power ", "Off");
    assert Lower("Power ") == "power" + [' '];
    assert Lower("Off") == Off;
  }

  /** `Power Off` snake-cases to `power_off`, which is not rewritten. */
  lemma PowerOffNearMiss()
    ensures Canonical("Power Off") == "power_off"
  {
    PowerOffLowered();
    WordsSplit("power", ' ', Off);
    WordsOfWord(Off);
    assert Words(Lower("Power Off")) == ["power", Off];
    assert Join(["power", Off]) == "power_off";
  }

  /** A mixed-case name is not canonical: its canonical form is lower case. */
  lemma PlayStationExample()
    ensures Canonical("PlayStation") == "playstation"
    ensures !IsCanonical("PlayStation")
  {
    PlayStationLowered();
    PlaystationIsOneWord();
  }

  lemma PlayStationLowered()
    ensures Lower("PlayStation") == "playstation"
  {
    assert "PlayStation" == "Play" + "Station";
    LowerConcat("Play", "Station");
    assert Lower("Play") == "play";
    assert Lower("Station") == "station";
    assert "play" + "station" == "playstation";
  }

  lemma PlaystationIsOneWord()
    ensures SnakeCase("playstation") == "playstation"
  {
    WordsOfWord("playstation");
  }
}

/** The records the data files hold, shared by the scraper output, the normalization pass
    and the SQL generator, and the rule that reads a gender from a results file name. */
module Records {
  import opened Common
  import opened Text

  /** One race of a participant: `Datums`, `Rezultāts`, `km`, `Vieta` and the season the
      normalization pass adds (absent in scraped files). */
  datatype RaceResult = RaceResult(datums: string, result: string, km: string, vieta: string,
                                   season: Option<string>)

  /** One participant of a results file; `normalizedName` is added by the normalization
      pass. */
  datatype Participant = Participant(name: string, link: string, races: seq<RaceResult>,
                                     normalizedName: Option<string>)

  /** One results file `<season>/<distance>/<fileName>` and the participants it holds; it
      stands for the directory walk of the scripts. */
  datatype SourceFile = SourceFile(season: string, distance: string, fileName: string,
                                   participants: seq<Participant>)

  /** The gender a results file name gives: 'women' is checked first, because 'men' is a
      substring of 'women'; 'S' for women, 'V' for men, 'U' otherwise. */
  function GenderOfFile(fileName: string): (g: string)
    ensures g == "S" <==> Includes(fileName, "women")
    ensures g == "V" <==> !Includes(fileName, "women") && Includes(fileName, "men")
    ensures g == "S" || g == "V" || g == "U"
  {
    if Includes(fileName, "women") then "S" else if Includes(fileName, "men") then "V" else "U"
  }

  /** Any name that contains 'women' also contains 'men'. */
  lemma WomenContainsMen(fileName: string)
    requires Includes(fileName, "women")
    ensures Includes(fileName, "men")
  {
    var i :| 0 <= i <= |fileName| - 5 && OccursAt(fileName, "women", i);
    assert fileName[i + 2..i + 5] == "women"[2..];
    assert OccursAt(fileName, "men", i + 2);
  }

  /** The two results file names the pipeline writes. */
  lemma FileNameGenders()
    ensures GenderOfFile("results_women.json") == "S"
    ensures GenderOfFile("results_men.json") == "V"
  {
    assert OccursAt("results_women.json", "women", 8);
    assert OccursAt("results_men.json", "men", 8);
    forall i | 0 <= i <= 11 ensures !OccursAt("results_men.json", "women", i) {
      assert "results_men.json"[i..i + 5][0] == "results_men.json"[i];
    }
  }
}

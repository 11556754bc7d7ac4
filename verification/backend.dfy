/** Choice of storage backend. The service compares its configured endpoint
    URL against a placeholder by substring search; the result is an explicit
    mode that the operations of `StorageService` take as a parameter. */
module Backend {

  /** Local: the browser key-value store; Remote: the spreadsheet web app at
      `endpoint`. */
  datatype Mode = Local | Remote(endpoint: string)

  /** The endpoint URL as shipped, before anyone pastes a real one in. */
  const ApiUrl: string := "PASTE_YOUR_GOOGLE_APPS_SCRIPT_WEB_APP_URL_HERE"

  /** The text whose presence in the URL means "not configured". */
  const Placeholder: string := "PASTE_YOUR"

  /** `pat` occurs in `text` starting at index `i`. */
  ghost predicate OccursAt(text: string, pat: string, i: int)
  {
    0 <= i && i + |pat| <= |text| && text[i..i + |pat|] == pat
  }

  /** `text.includes(pat)`: substring search from left to right. As in
      JavaScript, the empty pattern occurs in every text. */
  function Includes(text: string, pat: string): (r: bool)
    ensures r <==> exists i :: OccursAt(text, pat, i)
    decreases |text|
  {
    if |pat| <= |text| && text[..|pat|] == pat then
      assert OccursAt(text, pat, 0);
      true
    else if |text| == 0 then
      false
    else
      var r := Includes(text[1..], pat);
      assert forall i :: 1 <= i ==> (OccursAt(text, pat, i) <==> OccursAt(text[1..], pat, i - 1));
      assert !OccursAt(text, pat, 0);
      assert r ==> OccursAt(text[1..], pat, SomeOccurrence(text[1..], pat)) && OccursAt(text, pat, SomeOccurrence(text[1..], pat) + 1);
      r
  }

  /** Some index where `pat` occurs, for a text that contains it. */
  ghost function SomeOccurrence(text: string, pat: string): (i: int)
    requires exists i :: OccursAt(text, pat, i)
    ensures OccursAt(text, pat, i)
  {
    var i :| OccursAt(text, pat, i); i
  }

  /** `API_URL.includes('PASTE_YOUR')` decides the backend: Local exactly when
      the placeholder occurs anywhere in the URL, otherwise Remote at that URL. */
  function SelectBackend(apiUrl: string): (m: Mode)
    ensures m.Local? <==> exists i :: OccursAt(apiUrl, Placeholder, i)
    ensures m.Remote? ==> m.endpoint == apiUrl
  {
    if Includes(apiUrl, Placeholder) then Local else Remote(apiUrl)
  }

  /** As shipped, the URL still holds the placeholder, so every operation
      takes the local-storage branch. */
  lemma ShippedUrlSelectsLocal()
    ensures SelectBackend(ApiUrl) == Local
  {
    assert ApiUrl[0..|Placeholder|] == Placeholder by {
      assert forall k :: 0 <= k < |Placeholder| ==> ApiUrl[k] == Placeholder[k];
    }
    assert OccursAt(ApiUrl, Placeholder, 0);
  }

  /** A URL keeps selecting Local however it is extended, so long as the
      placeholder text is left somewhere inside it. */
  lemma PlaceholderAnywhereSelectsLocal(prefix: string, suffix: string)
    ensures SelectBackend(prefix + Placeholder + suffix) == Local
  {
    var url := prefix + Placeholder + suffix;
    assert url[|prefix|..|prefix| + |Placeholder|] == Placeholder;
    assert OccursAt(url, Placeholder, |prefix|);
  }
}

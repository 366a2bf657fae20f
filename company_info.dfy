/** The `company_info` tool, defined identically in
    agent_with_fastapi_sqlalchemy/tools.py and basics/tool_calls.py: a
    lookup of the lower-cased name in a literal dictionary with a default. */
module CompanyInfo {
  import opened Text

  const TATA_INFO: string := "Tata Group is an Indian multinational conglomerate."
  const GOOGLE_INFO: string := "Google is a global technology company."
  const NOT_FOUND: string := "Company not found"

  /** The tool's literal dictionary. */
  const DATA: map<string, string> := map["tata" := TATA_INFO, "google" := GOOGLE_INFO]

  /** `data.get(name.lower(), "Company not found")`. */
  function CompanyInfo(name: string): (r: string)
    ensures r == TATA_INFO || r == GOOGLE_INFO || r == NOT_FOUND
    ensures r == TATA_INFO <==> Lower(name) == "tata"
    ensures r == GOOGLE_INFO <==> Lower(name) == "google"
    ensures r == NOT_FOUND <==> Lower(name) != "tata" && Lower(name) != "google"
  {
    var key := Lower(name);
    if key in DATA then DATA[key] else NOT_FOUND
  }

  /** The answer depends on the name only through its lower-case form, so
      "TATA" and "Tata" both find the Tata entry. */
  lemma AnyLetterCase(a: string, b: string)
    requires |a| == |b| && forall i :: 0 <= i < |a| ==> LowerChar(a[i]) == LowerChar(b[i])
    ensures CompanyInfo(a) == CompanyInfo(b)
  {
    assert Lower(a) == Lower(b);
  }
}

/** How the two pages share the language preference: through the one
    storage entry, read only when a page starts. */
module SharedPreference {
  import opened Preferences
  import Viewer
  import Policy

  /** A language chosen on the viewer page is the one the policy page starts in. */
  lemma ViewerChoiceReachesPolicy(p: Viewer.Page, l: Language)
    ensures Policy.Init(Viewer.HandleLanguageChange(p, l).storage).language == l
  {
    StartupAfterPersist(p.storage, l);
  }

  /** A language chosen on the policy page is the one the viewer page starts in. */
  lemma PolicyChoiceReachesViewer(p: Policy.Page, l: Language)
    ensures Viewer.Init(Policy.HandleLanguageChange(p, l).storage).language == l
  {
    StartupAfterPersist(p.storage, l);
  }
}

/** The header's two toggles: the page language (App's `lang` state, which the header
    changes through `setLang`) and the open navigation dropdown (the header's own state). */
module Header {
  import opened Wrappers

  /** The updater toggleLanguage hands to setLang */
  function NextLanguage(lang: string): (r: string)
    ensures r == "en" || r == "ar"
    ensures r == "ar" <==> lang == "en"
  {
    if lang == "en" then "ar" else "en"
  }

  /** The updater a dropdown button hands to setOpenDropdown: close it if it is the open
      one, otherwise open it (closing any other) */
  function NextOpenDropdown(open: Option<string>, id: string): (r: Option<string>)
    ensures r.None? <==> open == Some(id)
    ensures r.Some? ==> r.value == id
  {
    if open == Some(id) then None else Some(id)
  }

  /** Toggling the language twice restores it */
  lemma ToggleLanguageTwice(lang: string)
    requires lang == "en" || lang == "ar"
    ensures NextLanguage(NextLanguage(lang)) == lang
  {
  }

  /** Toggling the same dropdown twice restores the state when it was closed or was that
      dropdown; from another open dropdown it ends closed */
  lemma ToggleDropdownTwice(open: Option<string>, id: string)
    ensures open == None || open == Some(id) ==> NextOpenDropdown(NextOpenDropdown(open, id), id) == open
    ensures open != None && open != Some(id) ==> NextOpenDropdown(NextOpenDropdown(open, id), id) == None
  {
  }

  class HeaderState {
    var lang: string
    var openDropdown: Option<string>

    ghost predicate Valid()
      reads this
    {
      lang == "en" || lang == "ar"
    }

    /** `useState('en')` in App and `useState(null)` in Header */
    constructor ()
      ensures Valid() && lang == "en" && openDropdown == None
    {
      lang := "en";
      openDropdown := None;
    }

    method ToggleLanguage()
      requires Valid()
      modifies this
      ensures Valid()
      ensures lang == NextLanguage(old(lang)) && lang != old(lang)
      ensures openDropdown == old(openDropdown)
    {
      lang := NextLanguage(lang);
    }

    /** handleMobileDropdown, and the desktop dropdown button */
    method ToggleDropdown(id: string)
      requires Valid()
      modifies this
      ensures Valid() && lang == old(lang)
      ensures openDropdown == NextOpenDropdown(old(openDropdown), id)
    {
      openDropdown := NextOpenDropdown(openDropdown, id);
    }

    /** A click outside the dropdown, or following a navigation link */
    method CloseDropdown()
      requires Valid()
      modifies this
      ensures Valid() && lang == old(lang) && openDropdown == None
    {
      openDropdown := None;
    }
  }
}

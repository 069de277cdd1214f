/**
  Concrete inputs worked through the model: the key-shape example from the
  key generator's own comment.
 */
module Examples {
  import opened Text
  import opened KeyGenerator

  // Each fact about a literal string is its own small lemma: Dafny unfolds
  // recursive functions on literal arguments eagerly, and one context
  // holding several such evaluations is far more expensive than each alone.

  lemma KeyCharsAppend(a: string, b: string)
    requires AllKeyChars(a) && AllKeyChars(b)
    ensures AllKeyChars(a + b)
  {
    forall i | 0 <= i < |a + b|
      ensures IsKeyChar((a + b)[i])
    {
      if i >= |a| {
        assert (a + b)[i] == b[i - |a|];
      }
    }
  }

  lemma StartKeyChars()
    ensures AllKeyChars("Start ")
  {
  }

  lemma CourseKeyChars()
    ensures AllKeyChars("Course")
  {
  }

  lemma StartCourseJoined()
    ensures "Start " + "Course" == "Start Course"
  {
  }

  lemma StartCourseCharsKept()
    ensures StripSpecial("Start Course") == "Start Course"
  {
    StartKeyChars();
    CourseKeyChars();
    KeyCharsAppend("Start ", "Course");
    StartCourseJoined();
  }

  lemma BangDeleted()
    ensures StripSpecial("!") == ""
  {
  }

  lemma StripSpecialDropsTail(a: string, b: string, kept: string)
    requires StripSpecial(a) == kept && StripSpecial(b) == ""
    ensures StripSpecial(a + b) == kept
  {
    StripSpecialAppend(a, b);
    assert StripSpecial(a) + StripSpecial(b) == kept + "";
  }

  lemma StartCourseSplit()
    ensures SplitOnSpace("Start Course") == ["Start", "Course"]
  {
    var words := ["Start", "Course"];
    assert JoinWithSpace(words) == "Start Course";
    SplitJoin(words);
  }

  lemma StartCapitalized()
    ensures CapitalizeWord("Start") == "Start"
  {
  }

  lemma CourseCapitalized()
    ensures CapitalizeWord("Course") == "Course"
  {
  }

  lemma StartCourseCapitalized()
    ensures CapitalizeAndConcat(["Start", "Course"]) == "StartCourse"
  {
    StartCapitalized();
    CourseCapitalized();
    var words := ["Start", "Course"];
    assert words[1..][1..] == [];
    assert CapitalizeAndConcat(words) == "Start" + ("Course" + "");
  }

  lemma StartCourseLabel()
    ensures PascalCase("Start Course", true) == "StartCourse"
  {
    StartCourseSplit();
    StartCourseCapitalized();
    CapitalizeSplitIsPascalCase("Start Course");
  }

  lemma StartCourseStripped()
    ensures StripSpecial("Start Course!") == "Start Course"
  {
    StartCourseCharsKept();
    BangDeleted();
    StripSpecialDropsTail("Start Course", "!", "Start Course");
    BangAppended();
  }

  lemma BangAppended()
    ensures "Start Course" + "!" == "Start Course!"
  {
  }

  lemma CleanOfStripped(t: string)
    requires StripSpecial(t) == "Start Course"
    ensures Clean(t) == "Start Course"
  {
    var c := "Start Course";
    assert c[0] == 'S' && c[|c| - 1] == 'e';
    assert !IsWhitespace(c[0]) && !IsWhitespace(c[|c| - 1]);
  }

  lemma StartCourseShort()
    ensures Truncate("Start Course") == "Start Course"
  {
  }

  lemma LabelOfCleaned(t: string)
    requires Clean(t) == "Start Course"
    ensures ToSemanticLabel(t) == "StartCourse"
  {
    LabelSpec(t);
    StartCourseShort();
    StartCourseLabel();
  }

  lemma AppStartCourseJoined()
    ensures "App" + "_" + "StartCourse" == "App_StartCourse"
  {
  }

  lemma KeyOfLabel(t: string)
    requires ToSemanticLabel(t) == "StartCourse"
    ensures Generate("App", t) == "App_StartCourse"
  {
    AppStartCourseJoined();
  }

  /** "Start Course!" keys as App_StartCourse: the "!" is deleted and each
      word is capitalised, so the text without "!" gets the same key. */
  lemma StartCourseExample()
    ensures Generate("App", "Start Course!") == "App_StartCourse"
    ensures Generate("App", "Start Course") == "App_StartCourse"
  {
    StartCourseStripped();
    CleanOfStripped("Start Course!");
    LabelOfCleaned("Start Course!");
    KeyOfLabel("Start Course!");
    StartCourseCharsKept();
    CleanOfStripped("Start Course");
    LabelOfCleaned("Start Course");
    KeyOfLabel("Start Course");
  }
}

/**
 * Sample directive lines and their split into grammar pieces.  Comparing
 * literal strings is the costly part of every example, so each line is
 * shown equal to its pieces here, one short concatenation at a time, and
 * the examples in `DirectiveCases` only use these equalities.
 */
module DirectiveSamples {
  import opened DirectiveRe

  const VersionChanged: BeforeParts := BeforeParts("", " ", "versionchanged", "", " ")
  const DeprecatedRemoved: BeforeParts := BeforeParts("", " ", "deprecated-removed", "", " ")
  const VersionAdded: BeforeParts := BeforeParts("", " ", "versionadded", "", " ")
  const IndentedTight: BeforeParts := BeforeParts("   ", " ", "versionadded", "", "")

  /** The text of a `before` group with no indent and single spaces around the name and after `::`. */
  lemma PlainText(p: BeforeParts)
    requires p.indent == "" && p.gap == " " && p.pad == "" && p.trail == " "
    ensures p.Text() == ".. " + p.name + ":: "
  {
    assert "" + Opener + " " == ".. ";
    assert "" + Separator + " " == ":: ";
    Reassociate(p.indent, Opener, p.gap, p.name, p.pad, Separator, p.trail, "");
    Reassociate(".", ".", " ", p.name, ":", ":", " ", "");
  }

  /** The same, for a given name and a given spelling of the whole text. */
  lemma PlainTextIs(name: string, text: string)
    requires text == ".. " + name + ":: "
    ensures BeforeParts("", " ", name, "", " ").Text() == text
  {
    PlainText(BeforeParts("", " ", name, "", " "));
  }

  lemma VersionChangedValid()
    ensures VersionChanged.Valid()
  {
  }

  lemma VersionChangedText()
    ensures VersionChanged.Text() == ".. versionchanged:: "
  {
    PlainTextIs("versionchanged", ".. versionchanged:: ");
  }

  lemma DeprecatedRemovedValid()
    ensures DeprecatedRemoved.Valid()
  {
  }

  lemma DeprecatedRemovedText()
    ensures DeprecatedRemoved.Text() == ".. deprecated-removed:: "
  {
    PlainTextIs("deprecated-removed", ".. deprecated-removed:: ");
  }

  lemma VersionAddedValid()
    ensures VersionAdded.Valid()
  {
  }

  lemma VersionAddedText()
    ensures VersionAdded.Text() == ".. versionadded:: "
  {
    PlainTextIs("versionadded", ".. versionadded:: ");
  }

  lemma IndentedTightValid()
    ensures IndentedTight.Valid()
  {
  }

  lemma IndentedTightText()
    ensures IndentedTight.Text() == "   .. versionadded::"
  {
    assert "   " + Opener + " " == "   .. ";
    Reassociate(IndentedTight.indent, Opener, IndentedTight.gap, "versionadded", "", Separator, "", "");
    assert "   .. " + "versionadded" == "   .. versionadded";
    assert "   .. versionadded" + "::" == "   .. versionadded::";
  }

  lemma VersionChangedLine()
    ensures ".. versionchanged:: " + Sentinel + "\n" == ".. versionchanged:: next\n"
  {
  }

  lemma VersionChangedOut()
    ensures ".. versionchanged:: " + "3.13" + "\n" == ".. versionchanged:: 3.13\n"
  {
  }

  lemma DeprecatedRemovedLine()
    ensures ".. deprecated-removed:: " + Sentinel + ", 3.15\n" == ".. deprecated-removed:: next, 3.15\n"
  {
  }

  lemma DeprecatedRemovedOut()
    ensures ".. deprecated-removed:: " + "3.13" + ", 3.15\n" == ".. deprecated-removed:: 3.13, 3.15\n"
  {
  }

  lemma IndentedTightLine()
    ensures "   .. versionadded::" + Sentinel + "\n" == "   .. versionadded::next\n"
  {
  }

  lemma IndentedTightOut()
    ensures "   .. versionadded::" + "3.14" + "\n" == "   .. versionadded::3.14\n"
  {
  }

  lemma NextedLine()
    ensures ".. versionadded:: " + Sentinel + "ed\n" == ".. versionadded:: nexted\n"
  {
  }

  lemma NextedOut()
    ensures ".. versionadded:: " + "3.13" + "ed\n" == ".. versionadded:: 3.13ed\n"
  {
  }

  lemma NextxtLine()
    ensures ".. versionadded:: " + Sentinel + "xt\n" == ".. versionadded:: nextxt\n"
  {
  }

  lemma RemovalNextLine()
    ensures ".. deprecated-removed:: " + "3.12, next\n" == ".. deprecated-removed:: 3.12, next\n"
  {
  }

  lemma NoteLine()
    ensures "" + Opener + " " + "note" + ":: next\n" == ".. note:: next\n"
  {
  }

  lemma NextxtOut()
    ensures VersionAdded.Text() + "ne" + "xt\n" == VersionAdded.Text() + Sentinel + "\n"
  {
    assert "ne" + "xt\n" == Sentinel + "\n";
    Assoc(VersionAdded.Text(), "ne", "xt\n");
    Assoc(VersionAdded.Text(), Sentinel, "\n");
  }
}

/** The media group of a file, chosen from its mime type to pick a viewer on the page. */
module Media {
  import opened Substrings

  /** The coarse classification a viewer widget is chosen by. */
  datatype MediaGroup = Audio | Video | Unknown

  /** Classify a mime type: "audio" is looked for first, then "video"; anything else is Unknown. */
  function DetermineMedia(mimeType: string): MediaGroup
  {
    if Contains(mimeType, "audio") then
      Audio
    else if Contains(mimeType, "video") then
      Video
    else
      Unknown
  }

  /** True when "audio" occurs at some position of the mime type, by the reference definition. */
  ghost predicate MentionsAudio(mimeType: string)
  {
    exists i :: OccursAt(mimeType, "audio", i)
  }

  /** True when "video" occurs at some position of the mime type, by the reference definition. */
  ghost predicate MentionsVideo(mimeType: string)
  {
    exists i :: OccursAt(mimeType, "video", i)
  }

  /**
   * The classification rule in terms of where the words occur: Audio exactly when "audio" occurs,
   * Video exactly when "video" occurs and "audio" does not, Unknown exactly when neither occurs.
   */
  lemma DetermineMediaSpec(mimeType: string)
    ensures DetermineMedia(mimeType) == Audio <==> MentionsAudio(mimeType)
    ensures DetermineMedia(mimeType) == Video <==> !MentionsAudio(mimeType) && MentionsVideo(mimeType)
    ensures DetermineMedia(mimeType) == Unknown <==> !MentionsAudio(mimeType) && !MentionsVideo(mimeType)
  {
    ContainsIffOccurs(mimeType, "audio");
    ContainsIffOccurs(mimeType, "video");
  }

  /** "audio" anywhere in the mime type wins, even when "video" is there as well. */
  lemma AudioHasPriority(pre: string, mid: string, post: string)
    ensures DetermineMedia(pre + "audio" + mid + "video" + post) == Audio
    ensures DetermineMedia(pre + "video" + mid + "audio" + post) == Audio
  {
    ContainsInfix(pre, "audio", mid + "video" + post);
    assert pre + "audio" + mid + "video" + post == pre + "audio" + (mid + "video" + post);
    ContainsInfix(pre + "video" + mid, "audio", post);
  }

  /** "video" anywhere in a mime type free of "audio" makes it Video. */
  lemma VideoWithoutAudio(pre: string, post: string)
    requires !MentionsAudio(pre + "video" + post)
    ensures DetermineMedia(pre + "video" + post) == Video
  {
    ContainsInfix(pre, "video", post);
    ContainsIffOccurs(pre + "video" + post, "audio");
  }

  /** A mime type the classifier does not recognise mentions neither word anywhere. */
  lemma UnknownMentionsNeither(mimeType: string, i: int)
    requires DetermineMedia(mimeType) == Unknown
    ensures !OccursAt(mimeType, "audio", i) && !OccursAt(mimeType, "video", i)
  {
    DetermineMediaSpec(mimeType);
  }

  /** The mime type of an mp3 file, "audio/mpeg", is classified Audio. */
  lemma ExampleAudio()
    ensures DetermineMedia("audio/mpeg") == Audio
  {
  }

  /** The mime type of an mp4 file, "video/mp4", is classified Video. */
  lemma ExampleVideo()
    ensures DetermineMedia("video/mp4") == Video
  {
    NotContainsByFirst("video/mp4", "audio");
  }

  /** The mime type of a text file, "text/plain", is classified Unknown. */
  lemma ExampleUnknown()
    ensures DetermineMedia("text/plain") == Unknown
  {
    NotContainsByFirst("text/plain", "audio");
    NotContainsByFirst("text/plain", "video");
  }
}

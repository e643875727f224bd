/**
 * The digest mail (createEmailBody and createEmail in main.go): every post
 * line is followed by a fixed terminator, the last one included.
 */
module Digest {

  /** What follows every post line in the body: a blank line, "--", a blank line. */
  const Terminator: string := "\n\n--\n\n"

  /** The fixed sender of every digest. */
  const Sender: string := "Feed to Mail <feed-to-mail@thorlaksson.com>"

  /** A plain-text mail as it is handed to the mail library. */
  datatype Email = Email(from: string, to: string, subject: string, body: string)

  /** The body for a list of post lines: each line followed by the terminator. */
  function Body(posts: seq<string>): string
  {
    if posts == [] then ""
    else Body(posts[..|posts| - 1]) + posts[|posts| - 1] + Terminator
  }

  /** The sum of the lengths of the lines. */
  function TotalLength(posts: seq<string>): nat
  {
    if posts == [] then 0 else TotalLength(posts[..|posts| - 1]) + |posts[|posts| - 1]|
  }

  /** createEmailBody: appends line and terminator for each line, in order. */
  method CreateEmailBody(posts: seq<string>) returns (body: string)
    ensures body == Body(posts)
  {
    body := "";
    for i := 0 to |posts|
      invariant body == Body(posts[..i])
    {
      assert posts[..i + 1][..i] == posts[..i];
      body := body + posts[i] + Terminator;
    }
    assert posts[..|posts|] == posts;
  }

  /** The body of two lists of lines is the body of the first followed by that of the second. */
  lemma {:induction false} BodyAppend(front: seq<string>, back: seq<string>)
    ensures Body(front + back) == Body(front) + Body(back)
  {
    if back == [] {
      assert front + back == front;
    } else {
      var prefix := back[..|back| - 1];
      BodyAppend(front, prefix);
      assert (front + back)[..|front + back| - 1] == front + prefix;
    }
  }

  /** The body of one line is that line with the terminator after it, so the terminator is never a separator. */
  lemma SingleLineBody(line: string)
    ensures Body([line]) == line + Terminator
  {
    assert [line][..0] == [];
  }

  /** The body's length is the lines' total length plus six per line; no lines give the empty body. */
  lemma {:induction false} BodyLength(posts: seq<string>)
    ensures |Body(posts)| == TotalLength(posts) + |Terminator| * |posts|
    ensures |Terminator| == 6
    ensures posts == [] <==> Body(posts) == ""
  {
    if posts != [] {
      BodyLength(posts[..|posts| - 1]);
    }
  }

  /** createEmail: the digest mail for a feed's title and its new post lines. */
  method CreateEmail(feedTitle: string, to: string, posts: seq<string>) returns (email: Email)
    ensures email.from == Sender && email.to == to
    ensures email.subject == feedTitle + " - digest"
    ensures email.body == Body(posts)
  {
    var body := CreateEmailBody(posts);
    email := Email(Sender, to, feedTitle + " - digest", body);
  }
}

/**
 * The list of posts the blog keeps in its JSON file, and the changes its handlers make to
 * it. A post has no key of its own: its id is its position in the list.
 */
module Posts {
  import opened Wrappers

  /** One post record, as stored in the JSON array. */
  datatype Post = Post(title: string, author: string, content: string, date: string,
                       image: Option<string>)

  /** The four text fields a create or edit form submits. */
  datatype Form = Form(title: string, author: string, content: string, date: string)

  /** The post `create` builds from a form and the stored image name, if any. */
  function NewPost(form: Form, image: Option<string>): (p: Post)
    ensures p.title == form.title && p.author == form.author
    ensures p.content == form.content && p.date == form.date
    ensures p.image == image
  {
    Post(form.title, form.author, form.content, form.date, image)
  }

  /**
   * The post `edit` leaves behind: the four text fields always take the submitted
   * values, the image is replaced only when a new one was stored.
   */
  function Revise(p: Post, form: Form, image: Option<string>): (q: Post)
    ensures q.title == form.title && q.author == form.author
    ensures q.content == form.content && q.date == form.date
    ensures image.Some? ==> q.image == image
    ensures image.None? ==> q.image == p.image
  {
    var q := p.(title := form.title, author := form.author, content := form.content,
                date := form.date);
    if image.Some? then q.(image := image) else q
  }

  /** Reading the post with a given id: `posts[post_id]`. */
  function Get(posts: seq<Post>, id: nat): (r: Result<Post>)
    ensures r.Ok? <==> id < |posts|
    ensures r.Ok? ==> r.value == posts[id]
    ensures r.Err? ==> r.error == IndexError
  {
    if id < |posts| then Ok(posts[id]) else Err(IndexError)
  }

  /** Adding a post: `posts.append(...)`. */
  function Append(posts: seq<Post>, p: Post): (r: seq<Post>)
    ensures |r| == |posts| + 1
    ensures r[..|posts|] == posts && r[|posts|] == p
  {
    posts + [p]
  }

  /** Editing the post with a given id in place, or failing when there is none. */
  function Edit(posts: seq<Post>, id: nat, form: Form, image: Option<string>): (r: Result<seq<Post>>)
    ensures r.Ok? <==> id < |posts|
    ensures r.Err? ==> r.error == IndexError
    ensures r.Ok? ==> |r.value| == |posts| && r.value[id] == Revise(posts[id], form, image)
    ensures r.Ok? ==> forall j :: 0 <= j < |posts| && j != id ==> r.value[j] == posts[j]
  {
    if id < |posts| then Ok(posts[id := Revise(posts[id], form, image)]) else Err(IndexError)
  }

  /** Removing the post with a given id, `posts.pop(post_id)`, or failing when there is none. */
  function Delete(posts: seq<Post>, id: nat): (r: Result<seq<Post>>)
    ensures r.Ok? <==> id < |posts|
    ensures r.Err? ==> r.error == IndexError
    ensures r.Ok? ==> |r.value| == |posts| - 1
    ensures r.Ok? ==> forall j :: 0 <= j < id ==> r.value[j] == posts[j]
    ensures r.Ok? ==> forall j :: id < j < |posts| ==> r.value[j - 1] == posts[j]
  {
    if id < |posts| then Ok(posts[..id] + posts[id + 1..]) else Err(IndexError)
  }

  /** A created post is found at the old length, and nothing earlier moves. */
  lemma GetAfterAppend(posts: seq<Post>, p: Post, id: nat)
    ensures Get(Append(posts, p), id) == if id == |posts| then Ok(p) else Get(posts, id)
  {
    if id < |posts| {
      assert Append(posts, p)[id] == Append(posts, p)[..|posts|][id];
    }
  }

  /** Create then get: a post created without an image reads back as the form, imageless. */
  lemma CreateThenGet(posts: seq<Post>, form: Form)
    ensures Get(Append(posts, NewPost(form, None)), |posts|)
         == Ok(Post(form.title, form.author, form.content, form.date, None))
  {
  }

  /** Deleting the post just created gives back the list as it was. */
  lemma DeleteUndoesAppend(posts: seq<Post>, p: Post)
    ensures Delete(Append(posts, p), |posts|) == Ok(posts)
  {
    var s := Append(posts, p);
    assert s[..|posts|] + s[|posts| + 1..] == posts;
  }

  /** After a delete, every later post is read one id lower, every earlier one at the same id. */
  lemma GetAfterDelete(posts: seq<Post>, id: nat, j: nat)
    requires id < |posts|
    ensures Get(Delete(posts, id).value, j) == Get(posts, if j < id then j else j + 1)
  {
  }

  /** The index shift on three posts: deleting id 0 moves the former id 1 to id 0. */
  lemma DeleteFirstOfThree(a: Post, b: Post, c: Post)
    ensures Delete([a, b, c], 0) == Ok([b, c])
    ensures Get(Delete([a, b, c], 0).value, 0) == Ok(b)
  {
    assert [a, b, c][..0] + [a, b, c][1..] == [b, c];
  }

  /** After an edit, the edited id reads back revised and every other id reads as before. */
  lemma GetAfterEdit(posts: seq<Post>, id: nat, form: Form, image: Option<string>, j: nat)
    requires id < |posts|
    ensures Get(Edit(posts, id, form, image).value, j)
         == if j == id then Ok(Revise(posts[id], form, image)) else Get(posts, j)
  {
  }

  /** An edit without a new image keeps the image the post had. */
  lemma EditKeepsImage(posts: seq<Post>, id: nat, form: Form)
    requires id < |posts|
    ensures Edit(posts, id, form, None).value[id].image == posts[id].image
    ensures Edit(posts, id, form, None).value[id]
         == Post(form.title, form.author, form.content, form.date, posts[id].image)
  {
  }

  /** Submitting the same edit twice has the same effect as submitting it once. */
  lemma EditIdempotent(posts: seq<Post>, id: nat, form: Form, image: Option<string>)
    requires id < |posts|
    ensures Edit(Edit(posts, id, form, image).value, id, form, image) == Edit(posts, id, form, image)
  {
    var once := Edit(posts, id, form, image).value;
    var twice := Edit(once, id, form, image).value;
    assert Revise(once[id], form, image) == once[id];
    assert forall j :: 0 <= j < |posts| ==> twice[j] == once[j];
    assert twice == once;
  }

  /** Re-submitting a post's own fields without a new image changes nothing. */
  lemma EditWithOwnFieldsIsIdentity(posts: seq<Post>, id: nat)
    requires id < |posts|
    ensures Edit(posts, id, Form(posts[id].title, posts[id].author, posts[id].content,
                                 posts[id].date), None) == Ok(posts)
  {
    var p := posts[id];
    var edited := Edit(posts, id, Form(p.title, p.author, p.content, p.date), None).value;
    assert edited[id] == p;
    assert forall j :: 0 <= j < |posts| ==> edited[j] == posts[j];
    assert edited == posts;
  }

  /** Every id at or past the end fails alike for reading, editing and deleting. */
  lemma OutOfRangeFails(posts: seq<Post>, id: nat, form: Form, image: Option<string>)
    requires id >= |posts|
    ensures Get(posts, id) == Err(IndexError)
    ensures Edit(posts, id, form, image) == Err(IndexError)
    ensures Delete(posts, id) == Err(IndexError)
  {
  }
}

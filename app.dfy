/**
 * The blog's request handlers, each a load-change-save round on the posts file. The file
 * is modelled by its contents: no file at all, or the list of posts it holds.
 */
module App {
  import opened Wrappers
  import opened Uploads
  import opened Posts

  class Blog {
    /** The contents of the posts file; `None` while the file does not exist. */
    var file: Option<seq<Post>>
    /** The file-name sanitizer applied to accepted uploads (`secure_filename`). */
    const sanitize: string -> string

    constructor (sanitize: string -> string, file: Option<seq<Post>>)
      ensures this.sanitize == sanitize && this.file == file
    {
      this.sanitize := sanitize;
      this.file := file;
    }

    /** The posts the file holds, the empty list when there is no file. */
    function Stored(): (posts: seq<Post>)
      reads this
      ensures file.None? ==> posts == []
      ensures file.Some? ==> posts == file.value
    {
      if file.Some? then file.value else []
    }

    /** `load_posts`: the saved list, or the empty list when nothing was saved yet. */
    method LoadPosts() returns (posts: seq<Post>)
      ensures posts == Stored()
    {
      if file.Some? {
        posts := file.value;
      } else {
        posts := [];
      }
    }

    /** `save_posts`: the file now holds exactly the given list. */
    method SavePosts(posts: seq<Post>)
      modifies this
      ensures file == Some(posts)
    {
      file := Some(posts);
    }

    /** Saving what was just loaded leaves the stored posts as they were. */
    method Resave()
      modifies this
      ensures Stored() == old(Stored())
      ensures file.Some?
    {
      var posts := LoadPosts();
      SavePosts(posts);
    }

    /** `posts_list`: every post, in stored order. */
    method PostsList() returns (posts: seq<Post>)
      ensures posts == Stored()
    {
      posts := LoadPosts();
    }

    /** `post`: the post with the given id, or IndexError when the list is shorter. */
    method ShowPost(id: nat) returns (r: Result<Post>)
      ensures r.Ok? <==> id < |Stored()|
      ensures r.Ok? ==> r.value == Stored()[id]
      ensures r.Err? ==> r.error == IndexError
    {
      var posts := LoadPosts();
      if id >= |posts| {
        return Err(IndexError);
      }
      r := Ok(posts[id]);
    }

    /** `create` on a submitted form: the new post goes at the end of the list, and is saved. */
    method Create(form: Form, upload: Upload)
      modifies this
      ensures file == Some(Append(old(Stored()), NewPost(form, StoredImage(upload, sanitize))))
    {
      var image: Option<string> := None;
      if upload.FileField? {
        if upload.filename != "" && AllowedFile(upload.filename) {
          image := Some(sanitize(upload.filename));
        }
      }
      var posts := LoadPosts();
      posts := posts + [NewPost(form, image)];
      SavePosts(posts);
    }

    /**
     * `edit` on a submitted form: the post with the given id is revised and the list saved;
     * with no such post it fails with IndexError and saves nothing.
     */
    method Edit(id: nat, form: Form, upload: Upload) returns (r: Outcome)
      modifies this
      ensures r.Pass? <==> id < |old(Stored())|
      ensures r.Fail? ==> r.error == IndexError && file == old(file)
      ensures r.Pass? ==>
        file == Some(Posts.Edit(old(Stored()), id, form, StoredImage(upload, sanitize)).value)
    {
      var posts := LoadPosts();
      if id >= |posts| {
        return Fail(IndexError);
      }
      var post := posts[id];
      post := post.(title := form.title, author := form.author, content := form.content,
                    date := form.date);
      if upload.FileField? {
        if upload.filename != "" && AllowedFile(upload.filename) {
          post := post.(image := Some(sanitize(upload.filename)));
        }
      }
      posts := posts[id := post];
      SavePosts(posts);
      r := Pass;
    }

    /**
     * `delete`: the post with the given id is removed and the later ones move down one id;
     * with no such post it fails with IndexError and saves nothing.
     */
    method Delete(id: nat) returns (r: Outcome)
      modifies this
      ensures r.Pass? <==> id < |old(Stored())|
      ensures r.Fail? ==> r.error == IndexError && file == old(file)
      ensures r.Pass? ==> file == Some(Posts.Delete(old(Stored()), id).value)
    {
      var posts := LoadPosts();
      if id >= |posts| {
        return Fail(IndexError);
      }
      posts := posts[..id] + posts[id + 1..];
      SavePosts(posts);
      r := Pass;
    }
  }

  /** A create followed by a show of the new id reads back the submitted post. */
  method CreateThenShow(blog: Blog, form: Form) returns (r: Result<Post>)
    modifies blog
    ensures r == Ok(Post(form.title, form.author, form.content, form.date, None))
  {
    var n := |blog.Stored()|;
    blog.Create(form, NoFileField);
    r := blog.ShowPost(n);
  }
}

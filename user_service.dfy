/** The user service: a local mirror of the server's user list, replaced by
    each successful request's callback. Each method stands for one request
    together with its outcome: it receives what the server answered (or the
    failure), updates the mirror as the success callback would, and hands the
    response back to its caller unchanged. */
module UserServiceModel {
  import opened Records
  import opened Http
  import opened UserLists

  /** The body of `GET /users`; only its `users` array is used. */
  datatype UsersPage = UsersPage(users: seq<Record>)

  class UserService {
    /** The published list (`usersSubject`'s current value). */
    var users: seq<Record>

    constructor ()
      ensures users == []
    {
      users := [];
    }

    /** `getUsers`: on success the list becomes the server's array. */
    method GetUsers(resp: Response<UsersPage>) returns (out: Response<UsersPage>)
      modifies this
      ensures out == resp
      ensures users == if resp.Ok? then resp.body.users else old(users)
    {
      if resp.Ok? {
        users := resp.body.users;
      }
      out := resp;
    }

    /** `getUser`: the single record is passed through; the list is not
        touched (this method has no `modifies` clause). */
    method GetUser(id: int, resp: Response<Record>) returns (out: Response<Record>)
      ensures out == resp
    {
      out := resp;
    }

    /** `addUser`: on success the server echo, with a default id of the old
        length plus one, is appended. The request body `user` only goes to
        the server. */
    method AddUser(user: Record, resp: Response<Record>) returns (out: Response<Record>)
      modifies this
      ensures out == resp
      ensures users == if resp.Ok? then Appended(old(users), resp.body) else old(users)
      ensures resp.Ok? ==> |users| == |old(users)| + 1 && users[..|old(users)|] == old(users)
      ensures resp.Ok? ==> users[|old(users)|][IdKey] == EffectiveId(|old(users)|, resp.body)
    {
      if resp.Ok? {
        users := Appended(users, resp.body);
      }
      out := resp;
    }

    /** `updateUser`: on success the server echo is merged into every record
        carrying `id`; all other records stay as and where they were. */
    method UpdateUser(id: int, user: Record, resp: Response<Record>) returns (out: Response<Record>)
      modifies this
      ensures out == resp
      ensures users == if resp.Ok? then MergeMatching(old(users), id, resp.body) else old(users)
      ensures |users| == |old(users)|
    {
      if resp.Ok? {
        users := MergeMatching(users, id, resp.body);
      }
      out := resp;
    }

    /** `deleteUser`: on success every record carrying `id` is dropped. */
    method DeleteUser(id: int, resp: Response<()>) returns (out: Response<()>)
      modifies this
      ensures out == resp
      ensures users == if resp.Ok? then RemoveMatching(old(users), id) else old(users)
      ensures resp.Ok? ==> forall u :: u in users ==> !HasId(u, id)
      ensures resp.Ok? ==> IsSubsequence(users, old(users))
    {
      if resp.Ok? {
        RemoveIsSubsequence(users, id);
        users := RemoveMatching(users, id);
      }
      out := resp;
    }
  }

  /** A client of the service: fetch two users, add one whose echo carries
      its own id, fail an update, then delete the first user. */
  method Session(first: Record, second: Record) returns (service: UserService)
    requires HasId(first, 1) && HasId(second, 2)
    ensures |service.users| == 2 && service.users[0] == second
    ensures HasId(service.users[1], 209)
  {
    var echo := map[IdKey := Num(209), "firstName" := Str("New")];
    service := new UserService();
    var _ := service.GetUsers(Ok(UsersPage([first, second])));
    var _ := service.AddUser(map["firstName" := Str("New")], Ok(echo));
    ghost var added := service.users[2];
    assert service.users == [first, second, added];
    var _ := service.UpdateUser(7, map[], Failed(HttpError(404)));
    var _ := service.DeleteUser(1, Ok(()));
    RemoveDistributes([first], [second, added], 1);
    assert [first] + [second, added] == [first, second, added];
    RemoveAbsentIsIdentity([second, added], 1);
  }
}
